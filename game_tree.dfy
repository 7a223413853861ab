/**
 * The rules library seen from the search: a node of the game tree knows its
 * position, whether the side to move is in check, checkmated or stalemated,
 * whether the game is over, the variant win/loss flags, and its legal moves in
 * generator order, each paired with the node that playing it leads to.
 * Pushing a move and popping it again is modelled by descending to that
 * child: the parent node is a value and is never changed.
 */
module GameTree {
  import opened Chess

  datatype Node = Node(
    pos: Position,
    inCheck: bool,
    checkmate: bool,
    stalemate: bool,
    gameOver: bool,
    variantWin: bool,
    variantLoss: bool,
    branches: seq<Branch>)

  datatype Branch = Branch(move: Move, child: Node)

  /** The legal moves of a node, in generator order. */
  function Moves(n: Node): (r: seq<Move>)
    ensures |r| == |n.branches|
    ensures forall i :: 0 <= i < |r| ==> r[i] == n.branches[i].move
  {
    seq(|n.branches|, i requires 0 <= i < |n.branches| => n.branches[i].move)
  }

  /** Where a legal move of `n` is found among its branches (the first such place). */
  function BranchIndex(n: Node, m: Move): (k: nat)
    requires m in Moves(n)
    ensures k < |n.branches| && n.branches[k].move == m
  {
    IndexOf(Moves(n), m)
  }

  function IndexOf(s: seq<Move>, x: Move): (k: nat)
    requires x in s
    ensures k < |s| && s[k] == x
  {
    if s[0] == x then 0 else 1 + IndexOf(s[1..], x)
  }

  /** The node reached by playing `m` at `n`. */
  function Child(n: Node, m: Move): Node
    requires m in Moves(n)
  {
    n.branches[BranchIndex(n, m)].child
  }

  /** Every move in `moves` is a legal move of `n`. */
  predicate MovesOfNode(n: Node, moves: seq<Move>) {
    forall j :: 0 <= j < |moves| ==> moves[j] in Moves(n)
  }

  /** Every move of this node is legal on its board. */
  predicate MovesLegal(n: Node) {
    forall i :: 0 <= i < |n.branches| ==> LegalOn(n.pos.squares, n.branches[i].move)
  }

  /** Every move of every node of the tree is legal on its board. */
  predicate WellFormed(n: Node)
    decreases n
  {
    && MovesLegal(n)
    && forall i :: 0 <= i < |n.branches| ==> WellFormed(n.branches[i].child)
  }

  lemma ChildWellFormed(n: Node, m: Move)
    requires WellFormed(n) && m in Moves(n)
    ensures WellFormed(Child(n, m))
  {
  }

  /**
   * A move orderer: for every well-formed node it answers with legal moves of
   * that node, in the order a search is to try them.
   */
  ghost predicate IsOrderer(order: Node --> seq<Move>) {
    forall n {:trigger order.requires(n)} :: WellFormed(n) ==> order.requires(n) && MovesOfNode(n, order(n))
  }
}
