/**
 * The perft node counter (src/perft.py): the number of move paths of a given
 * length from a position, counted by playing every prioritized move, counting
 * below it, and taking it back. Pushing and popping the move is modelled by
 * descending to the child node, so the position counted from is never changed.
 *
 * The count is defined over any move orderer; the counter the engine runs
 * uses the move sorter's `PrioritizeLegalMoves`, and since that ordering is a
 * permutation of the legal moves the count is the same as in generator order.
 */
module Perft {
  import opened Chess
  import opened GameTree
  import opened MoveSorter

  /** The number of paths of `depth` moves from `n`, trying the moves in the order `order` gives. */
  function PerftCount(order: Node --> seq<Move>, n: Node, depth: int): nat
    requires IsOrderer(order) && WellFormed(n)
    decreases n, 1
  {
    if depth == 0 then 1 else PerftSum(order, n, depth, order(n))
  }

  /** The counts below the moves `moves` of `n`, added up in order. */
  function PerftSum(order: Node --> seq<Move>, n: Node, depth: int, moves: seq<Move>): nat
    requires IsOrderer(order) && WellFormed(n) && MovesOfNode(n, moves)
    decreases n, 0, |moves|
  {
    if |moves| == 0 then 0
    else PerftSum(order, n, depth, moves[..|moves| - 1]) + ChildCount(order, n, depth, moves[|moves| - 1])
  }

  /** The count below one move of `n`. */
  function ChildCount(order: Node --> seq<Move>, n: Node, depth: int, m: Move): nat
    requires IsOrderer(order) && WellFormed(n) && m in Moves(n)
    decreases n, 0, 0
  {
    ChildWellFormed(n, m);
    PerftCount(order, Child(n, m), depth - 1)
  }

  /** An orderer that, at every well-formed node, answers with each legal move exactly once. */
  ghost predicate IsPermutingOrderer(order: Node --> seq<Move>) {
    && IsOrderer(order)
    && forall n {:trigger order.requires(n)} :: WellFormed(n) ==> order.requires(n) && multiset(order(n)) == multiset(Moves(n))
  }

  /** Generator order is an orderer that permutes the legal moves. */
  lemma GeneratorOrder()
    ensures IsPermutingOrderer(Moves)
  {
    forall n | WellFormed(n)
      ensures MovesOfNode(n, Moves(n))
    {
      forall j | 0 <= j < |Moves(n)|
        ensures Moves(n)[j] in Moves(n)
      {
      }
    }
  }

  /** The move sorter's prioritized order permutes the legal moves. */
  lemma PrioritizedOrder()
    ensures IsPermutingOrderer(PrioritizeLegalMoves)
  {
    SorterOrderers();
    forall n | WellFormed(n)
      ensures multiset(PrioritizeLegalMoves(n)) == multiset(Moves(n))
    {
      PrioritizeLegalMovesSpec(n);
    }
  }

  // ---------------------------------------------------------------------
  // The counter.

  /**
   * Counts the paths of `depth` moves from `n`, playing the moves `order`
   * gives in turn and counting below each.
   */
  method Perft(order: Node --> seq<Move>, n: Node, depth: int) returns (nodes: nat)
    requires IsOrderer(order) && WellFormed(n)
    ensures nodes == PerftCount(order, n, depth)
    decreases n
  {
    if depth == 0 {
      return 1;
    }
    var moves := order(n);
    nodes := 0;
    for i := 0 to |moves|
      invariant nodes == PerftSum(order, n, depth, moves[..i])
    {
      var move := moves[i];
      ChildWellFormed(n, move);
      var childNodes := Perft(order, Child(n, move), depth - 1);
      PerftSumStep(order, n, depth, moves, i);
      nodes := nodes + childNodes;
    }
    assert moves[..|moves|] == moves;
  }

  /**
   * The counter as the engine runs it, trying the prioritized moves; its
   * count is the one taken in generator order.
   */
  method PrioritizedPerft(n: Node, depth: int) returns (nodes: nat)
    requires WellFormed(n)
    ensures IsOrderer(PrioritizeLegalMoves) && nodes == PerftCount(PrioritizeLegalMoves, n, depth)
    ensures nodes == PerftCount(Moves, n, depth)
  {
    SorterOrderers();
    nodes := Perft(PrioritizeLegalMoves, n, depth);
    PerftInGeneratorOrder(n, depth);
  }

  /** One more move of a list adds the count below it. */
  lemma PerftSumStep(order: Node --> seq<Move>, n: Node, depth: int, moves: seq<Move>, i: nat)
    requires IsOrderer(order) && WellFormed(n) && MovesOfNode(n, moves) && i < |moves|
    ensures MovesOfNode(n, moves[..i]) && WellFormed(Child(n, moves[i]))
    ensures PerftSum(order, n, depth, moves[..i + 1])
         == PerftSum(order, n, depth, moves[..i]) + PerftCount(order, Child(n, moves[i]), depth - 1)
  {
    ChildWellFormed(n, moves[i]);
    assert moves[..i + 1][..i] == moves[..i];
  }

  // ---------------------------------------------------------------------
  // Properties of the count.

  /** The count in prioritized order is the count in generator order. */
  lemma PerftInGeneratorOrder(n: Node, depth: int)
    requires WellFormed(n)
    ensures IsOrderer(PrioritizeLegalMoves) && IsOrderer(Moves)
    ensures PerftCount(PrioritizeLegalMoves, n, depth) == PerftCount(Moves, n, depth)
  {
    PrioritizedOrder();
    GeneratorOrder();
    OrderIndependent(PrioritizeLegalMoves, Moves, n, depth);
  }

  /** At depth 0 the position itself is the one path. */
  lemma PerftZero(order: Node --> seq<Move>, n: Node)
    requires IsOrderer(order) && WellFormed(n)
    ensures PerftCount(order, n, 0) == 1
  {
  }

  /** Below depth 0 a position without moves contributes nothing. */
  lemma PerftNoMoves(order: Node --> seq<Move>, n: Node, depth: int)
    requires IsPermutingOrderer(order) && WellFormed(n) && depth != 0 && |n.branches| == 0
    ensures PerftCount(order, n, depth) == 0
  {
    assert |multiset(order(n))| == |multiset(Moves(n))| == 0;
  }

  lemma {:induction false} PerftSumOnes(order: Node --> seq<Move>, n: Node, moves: seq<Move>)
    requires IsOrderer(order) && WellFormed(n) && MovesOfNode(n, moves)
    ensures PerftSum(order, n, 1, moves) == |moves|
    decreases |moves|
  {
    if |moves| > 0 {
      var m := moves[|moves| - 1];
      ChildWellFormed(n, m);
      assert ChildCount(order, n, 1, m) == PerftCount(order, Child(n, m), 0) == 1;
      PerftSumOnes(order, n, moves[..|moves| - 1]);
    }
  }

  /** At depth 1 the count is the number of legal moves. */
  lemma PerftOne(order: Node --> seq<Move>, n: Node)
    requires IsPermutingOrderer(order) && WellFormed(n)
    ensures PerftCount(order, n, 1) == |n.branches|
  {
    PerftSumOnes(order, n, order(n));
    assert |multiset(order(n))| == |multiset(Moves(n))|;
  }

  /** A sum of per-move counts, added up in order. */
  function SumOver(f: Move -> nat, ms: seq<Move>): nat
    decreases |ms|
  {
    if |ms| == 0 then 0 else SumOver(f, ms[..|ms| - 1]) + f(ms[|ms| - 1])
  }

  lemma {:induction false} SumOverAppend(f: Move -> nat, a: seq<Move>, b: seq<Move>)
    ensures SumOver(f, a + b) == SumOver(f, a) + SumOver(f, b)
    decreases |b|
  {
    if |b| == 0 {
      assert a + b == a;
    } else {
      var init := b[..|b| - 1];
      assert (a + b)[..|a + b| - 1] == a + init;
      assert (a + b)[|a + b| - 1] == b[|b| - 1];
      SumOverAppend(f, a, init);
    }
  }

  /** Taking out the move at `k` takes its count out of the sum. */
  lemma SumOverRemove(f: Move -> nat, ys: seq<Move>, k: nat)
    requires k < |ys|
    ensures SumOver(f, ys) == SumOver(f, ys[..k] + ys[k + 1..]) + f(ys[k])
  {
    var front, back := ys[..k], ys[k + 1..];
    assert ys == (front + [ys[k]]) + back;
    SumOverAppend(f, front + [ys[k]], back);
    SumOverAppend(f, front, back);
    assert (front + [ys[k]])[..|front|] == front;
  }

  /** Taking the same element out of two permutations of each other leaves permutations of each other. */
  lemma MultisetRemove(xs: seq<Move>, ys: seq<Move>, k: nat)
    requires 0 < |xs| && k < |ys| && multiset(xs) == multiset(ys) && ys[k] == xs[|xs| - 1]
    ensures multiset(xs[..|xs| - 1]) == multiset(ys[..k] + ys[k + 1..])
  {
    var x, init, rest := ys[k], xs[..|xs| - 1], ys[..k] + ys[k + 1..];
    assert xs == init + [x];
    assert ys == ys[..k] + [x] + ys[k + 1..];
    assert multiset(ys) == multiset(rest) + multiset{x};
    assert multiset(init) + multiset{x} == multiset(rest) + multiset{x};
    assert multiset(init) == multiset(init) + multiset{x} - multiset{x};
    assert multiset(rest) == multiset(rest) + multiset{x} - multiset{x};
  }

  /** A sum of per-move counts does not depend on the order of the moves. */
  lemma {:induction false} SumOverPermutation(f: Move -> nat, xs: seq<Move>, ys: seq<Move>)
    requires multiset(xs) == multiset(ys)
    ensures SumOver(f, xs) == SumOver(f, ys)
    decreases |xs|
  {
    if |xs| == 0 {
      assert |multiset(ys)| == 0;
    } else {
      var x := xs[|xs| - 1];
      assert x in multiset(ys);
      var k :| 0 <= k < |ys| && ys[k] == x;
      MultisetRemove(xs, ys, k);
      SumOverPermutation(f, xs[..|xs| - 1], ys[..k] + ys[k + 1..]);
      SumOverRemove(f, ys, k);
    }
  }

  /** The count below each move of `n`, and 0 for anything else. */
  function Counter(order: Node --> seq<Move>, n: Node, depth: int): Move -> nat
    requires IsOrderer(order) && WellFormed(n)
  {
    (m: Move) => if m in Moves(n) then ChildCount(order, n, depth, m) else 0
  }

  lemma {:induction false} PerftSumIsSumOver(order: Node --> seq<Move>, n: Node, depth: int, moves: seq<Move>)
    requires IsOrderer(order) && WellFormed(n) && MovesOfNode(n, moves)
    ensures PerftSum(order, n, depth, moves) == SumOver(Counter(order, n, depth), moves)
    decreases |moves|
  {
    if |moves| > 0 {
      PerftSumIsSumOver(order, n, depth, moves[..|moves| - 1]);
    }
  }

  /** Adding up the counts below the moves of a node does not depend on their order. */
  lemma PerftSumPermutation(order: Node --> seq<Move>, n: Node, depth: int, xs: seq<Move>, ys: seq<Move>)
    requires IsOrderer(order) && WellFormed(n) && MovesOfNode(n, xs) && MovesOfNode(n, ys)
    requires multiset(xs) == multiset(ys)
    ensures PerftSum(order, n, depth, xs) == PerftSum(order, n, depth, ys)
  {
    PerftSumIsSumOver(order, n, depth, xs);
    PerftSumIsSumOver(order, n, depth, ys);
    SumOverPermutation(Counter(order, n, depth), xs, ys);
  }

  /** Sums over the same moves agree when the counts below each move agree. */
  lemma {:induction false} PerftSumPointwise(a: Node --> seq<Move>, b: Node --> seq<Move>, n: Node, depth: int, moves: seq<Move>)
    requires IsOrderer(a) && IsOrderer(b) && WellFormed(n) && MovesOfNode(n, moves)
    requires forall j :: 0 <= j < |moves| ==> ChildCount(a, n, depth, moves[j]) == ChildCount(b, n, depth, moves[j])
    ensures PerftSum(a, n, depth, moves) == PerftSum(b, n, depth, moves)
    decreases |moves|
  {
    if |moves| > 0 {
      PerftSumPointwise(a, b, n, depth, moves[..|moves| - 1]);
    }
  }

  /**
   * The count does not depend on the move ordering: any two orderers that
   * answer with a permutation of the legal moves count the same paths.
   */
  lemma {:induction false} OrderIndependent(a: Node --> seq<Move>, b: Node --> seq<Move>, n: Node, depth: int)
    requires IsPermutingOrderer(a) && IsPermutingOrderer(b) && WellFormed(n)
    ensures PerftCount(a, n, depth) == PerftCount(b, n, depth)
    decreases n
  {
    if depth != 0 {
      var moves := Moves(n);
      forall j | 0 <= j < |moves|
        ensures ChildCount(a, n, depth, moves[j]) == ChildCount(b, n, depth, moves[j])
      {
        ChildWellFormed(n, moves[j]);
        OrderIndependent(a, b, Child(n, moves[j]), depth - 1);
      }
      PerftSumPointwise(a, b, n, depth, moves);
      PerftSumPermutation(a, n, depth, a(n), moves);
      PerftSumPermutation(b, n, depth, b(n), moves);
    }
  }
}
