/**
 * Move ordering for the negamax searcher (src/move_sorter.py): legal moves are
 * split into checks, captures and quiet moves; checks and quiet moves are
 * sorted by their ordering value, highest first, and captures by most valuable
 * victim, then least valuable aggressor.
 */
module MoveSorter {
  import opened Chess
  import opened GameTree
  import opened Evaluate
  import opened Ordering

  // ---------------------------------------------------------------------
  // Grouping.

  /** A dictionary from keys to lists in which a missing key reads as the empty list. */
  function Bucket<T>(groups: map<string, seq<T>>, k: string): seq<T> {
    if k in groups then groups[k] else []
  }

  /**
   * The grouping loop: each element, in turn, is appended to the list kept
   * for its key. Starting from `init`, every list ends up extended by exactly
   * the elements with its key, in input order.
   */
  method GroupBy<T>(xs: seq<T>, key: T -> string, init: map<string, seq<T>>) returns (groups: map<string, seq<T>>)
    ensures forall k :: Bucket(groups, k) == Bucket(init, k) + Filter(xs, key, k)
  {
    groups := init;
    for i := 0 to |xs|
      invariant forall k :: Bucket(groups, k) == Bucket(init, k) + Filter(xs[..i], key, k)
    {
      var k := key(xs[i]);
      ghost var before := groups;
      groups := groups[k := Bucket(groups, k) + [xs[i]]];
      assert xs[..i + 1] == xs[..i] + [xs[i]];
      forall k' | true
        ensures Bucket(groups, k') == Bucket(init, k') + Filter(xs[..i + 1], key, k')
      {
        FilterSnoc(xs[..i], xs[i], key, k');
        if k' != k {
          assert Bucket(groups, k') == Bucket(before, k');
        }
      }
    }
    assert xs[..|xs|] == xs;
  }

  const CheckType := "check"
  const CaptureType := "capture"
  const QuietType := "quiet"

  /** The bucket a move goes to: a checking move is a check even when it also captures. */
  function ComposeMoveType(m: Move): (t: string)
    ensures t == CheckType || t == CaptureType || t == QuietType
    ensures t == CheckType <==> m.givesCheck
    ensures t == CaptureType <==> !m.givesCheck && m.isCapture
    ensures t == QuietType <==> !m.givesCheck && !m.isCapture
  {
    if m.givesCheck then CheckType
    else if m.isCapture then CaptureType
    else QuietType
  }

  // ---------------------------------------------------------------------
  // Sorting by ordering value.

  predicate AllLegal(p: Position, ms: seq<Move>) {
    forall i :: 0 <= i < |ms| ==> LegalOn(p.squares, ms[i])
  }

  /** Each move with the key that sorts it by descending ordering value. */
  function ValueKeyed(p: Position, ms: seq<Move>): (ds: seq<Decorated>)
    requires AllLegal(p, ms)
    ensures |ds| == |ms|
    ensures forall i :: 0 <= i < |ms| ==> ds[i] == Decorated(ms[i], SortKey(-EvaluateMoveValue(p, ms[i]), 0))
    ensures MovesOf(ds) == ms
  {
    seq(|ms|, i requires 0 <= i < |ms| => Decorated(ms[i], SortKey(-EvaluateMoveValue(p, ms[i]), 0)))
  }

  function SortMovesByValue(p: Position, ms: seq<Move>): seq<Move>
    requires AllLegal(p, ms)
  {
    MovesOf(SortBy(ValueKeyed(p, ms)))
  }

  /** A decorated sequence whose keys are as `ValueKeyed` gives them still has those keys after sorting. */
  lemma SortedKeysAreValueKeys(p: Position, ms: seq<Move>)
    requires AllLegal(p, ms)
    ensures forall i :: 0 <= i < |ms| ==>
      SortBy(ValueKeyed(p, ms))[i] in ValueKeyed(p, ms)
  {
    var ds := ValueKeyed(p, ms);
    SortBySorted(ds);
    forall i | 0 <= i < |ms|
      ensures SortBy(ds)[i] in ds
    {
      assert SortBy(ds)[i] in multiset(SortBy(ds));
    }
  }

  /**
   * Sorting by value returns the same moves, as often as they were given,
   * ordered from the highest ordering value to the lowest, and moves of equal
   * value keep their input order.
   */
  lemma SortMovesByValueSpec(p: Position, ms: seq<Move>)
    requires AllLegal(p, ms)
    ensures multiset(SortMovesByValue(p, ms)) == multiset(ms)
    ensures AllLegal(p, SortMovesByValue(p, ms))
    ensures forall i, j :: 0 <= i < j < |ms| ==>
      EvaluateMoveValue(p, SortMovesByValue(p, ms)[i]) >= EvaluateMoveValue(p, SortMovesByValue(p, ms)[j])
    ensures forall k :: Filter(SortBy(ValueKeyed(p, ms)), KeyOf, k) == Filter(ValueKeyed(p, ms), KeyOf, k)
  {
    var ds := ValueKeyed(p, ms);
    SortBySorted(ds);
    SortByPermutesMoves(ds);
    SortedKeysAreValueKeys(p, ms);
    var r := SortMovesByValue(p, ms);
    forall i | 0 <= i < |ms|
      ensures LegalOn(p.squares, r[i]) && SortBy(ds)[i].key == SortKey(-EvaluateMoveValue(p, r[i]), 0)
    {
      var j :| 0 <= j < |ds| && ds[j] == SortBy(ds)[i];
    }
    forall k {
      SortByStable(ds, k);
    }
  }

  // ---------------------------------------------------------------------
  // Most valuable victim, least valuable aggressor.

  /** A capture with the material values of its victim and of the capturing piece. */
  datatype VictimAggressor = VictimAggressor(move: Move, victim: int, aggressor: int)

  /** The victim and aggressor values of a capture; en passant counts as a pawn taking a pawn. */
  function DetermineVictimAndAggressorTypes(p: Position, m: Move): (va: VictimAggressor)
    requires LegalOn(p.squares, m) && m.isCapture
    ensures va.move == m
    ensures m.isEnPassant ==> va.victim == PieceValue(Pawn) && va.aggressor == PieceValue(Pawn)
    ensures !m.isEnPassant ==> va.victim - va.aggressor == CaptureValue(p, m)
    ensures va.aggressor == if m.isEnPassant then PieceValue(Pawn) else PieceValue(MovingKind(p.squares, m))
  {
    if m.isEnPassant then VictimAggressor(m, PieceValue(Pawn), PieceValue(Pawn))
    else
      var aggressor := p.squares[m.from].value.kind;
      var victim := p.squares[m.to].value.kind;
      VictimAggressor(m, PieceValue(victim), PieceValue(aggressor))
  }

  predicate AllCaptures(p: Position, ms: seq<Move>) {
    forall i :: 0 <= i < |ms| ==> LegalOn(p.squares, ms[i]) && ms[i].isCapture
  }

  function MvvLvaKey(va: VictimAggressor): SortKey {
    SortKey(-va.victim, va.aggressor)
  }

  function MvvLvaKeyed(p: Position, ms: seq<Move>): (ds: seq<Decorated>)
    requires AllCaptures(p, ms)
    ensures |ds| == |ms|
    ensures forall i :: 0 <= i < |ms| ==>
      ds[i] == Decorated(ms[i], MvvLvaKey(DetermineVictimAndAggressorTypes(p, ms[i])))
    ensures MovesOf(ds) == ms
  {
    seq(|ms|, i requires 0 <= i < |ms| => Decorated(ms[i], MvvLvaKey(DetermineVictimAndAggressorTypes(p, ms[i]))))
  }

  function SortMvvLva(p: Position, ms: seq<Move>): seq<Move>
    requires AllCaptures(p, ms)
  {
    MovesOf(SortBy(MvvLvaKeyed(p, ms)))
  }

  /** `a` comes no later than `b` in most-valuable-victim, least-valuable-aggressor order. */
  predicate MvvLvaBefore(a: VictimAggressor, b: VictimAggressor) {
    a.victim > b.victim || (a.victim == b.victim && a.aggressor <= b.aggressor)
  }

  /**
   * The capture ordering returns the same captures, by descending victim value
   * and, among equal victims, ascending aggressor value; captures that tie on
   * both keep their input order.
   */
  lemma SortMvvLvaSpec(p: Position, ms: seq<Move>)
    requires AllCaptures(p, ms)
    ensures multiset(SortMvvLva(p, ms)) == multiset(ms)
    ensures AllCaptures(p, SortMvvLva(p, ms))
    ensures forall i, j :: 0 <= i < j < |ms| ==>
      MvvLvaBefore(DetermineVictimAndAggressorTypes(p, SortMvvLva(p, ms)[i]),
                   DetermineVictimAndAggressorTypes(p, SortMvvLva(p, ms)[j]))
    ensures forall k :: Filter(SortBy(MvvLvaKeyed(p, ms)), KeyOf, k) == Filter(MvvLvaKeyed(p, ms), KeyOf, k)
  {
    var ds := MvvLvaKeyed(p, ms);
    SortBySorted(ds);
    SortByPermutesMoves(ds);
    var r := SortMvvLva(p, ms);
    forall i | 0 <= i < |ms|
      ensures LegalOn(p.squares, r[i]) && r[i].isCapture
      ensures SortBy(ds)[i].key == MvvLvaKey(DetermineVictimAndAggressorTypes(p, r[i]))
    {
      assert SortBy(ds)[i] in multiset(SortBy(ds));
      var j :| 0 <= j < |ds| && ds[j] == SortBy(ds)[i];
    }
    forall k {
      SortByStable(ds, k);
    }
  }

  /** An en-passant capture sorts as a pawn taking a pawn. */
  lemma EnPassantKey(p: Position, m: Move)
    requires LegalOn(p.squares, m) && m.isCapture && m.isEnPassant
    ensures MvvLvaKey(DetermineVictimAndAggressorTypes(p, m)) == SortKey(-100, 100)
  {
  }

  // ---------------------------------------------------------------------
  // The orderings the searcher asks for.

  /** The legal moves of one bucket. */
  function Group(n: Node, t: string): (r: seq<Move>)
    ensures forall m :: m in r <==> m in Moves(n) && ComposeMoveType(m) == t
  {
    FilterMembers(Moves(n), ComposeMoveType, t);
    Filter(Moves(n), ComposeMoveType, t)
  }

  /** Every move of a bucket is legal, and every move of the capture bucket is a capture. */
  lemma GroupLegal(n: Node)
    requires MovesLegal(n)
    ensures AllLegal(n.pos, Group(n, CheckType))
    ensures AllCaptures(n.pos, Group(n, CaptureType))
    ensures AllLegal(n.pos, Group(n, QuietType))
  {
    forall t, i | 0 <= i < |Group(n, t)|
      ensures LegalOn(n.pos.squares, Group(n, t)[i])
    {
      assert Group(n, t)[i] in Group(n, t);
    }
    forall i | 0 <= i < |Group(n, CaptureType)|
      ensures Group(n, CaptureType)[i].isCapture
    {
      assert Group(n, CaptureType)[i] in Group(n, CaptureType);
    }
  }

  /** Checks by value, then captures by victim and aggressor, then quiet moves by value. */
  function PrioritizeLegalMoves(n: Node): seq<Move>
    requires MovesLegal(n)
  {
    GroupLegal(n);
    SortMovesByValue(n.pos, Group(n, CheckType))
    + SortMvvLva(n.pos, Group(n, CaptureType))
    + SortMovesByValue(n.pos, Group(n, QuietType))
  }

  /** When in check, every legal move; otherwise the checks by value, then the captures by victim and aggressor. */
  function GetMovesToDequiet(n: Node): seq<Move>
    requires MovesLegal(n)
  {
    GroupLegal(n);
    if n.inCheck then PrioritizeLegalMoves(n)
    else SortMovesByValue(n.pos, Group(n, CheckType)) + SortMvvLva(n.pos, Group(n, CaptureType))
  }

  /** Checks come before captures, and captures before quiet moves. */
  function ClassRank(m: Move): nat {
    if m.givesCheck then 0 else if m.isCapture then 1 else 2
  }

  lemma SortedGroups(n: Node)
    requires MovesLegal(n)
    ensures AllLegal(n.pos, Group(n, CheckType))
    ensures AllCaptures(n.pos, Group(n, CaptureType))
    ensures AllLegal(n.pos, Group(n, QuietType))
    ensures multiset(SortMovesByValue(n.pos, Group(n, CheckType))) == multiset(Group(n, CheckType))
    ensures multiset(SortMvvLva(n.pos, Group(n, CaptureType))) == multiset(Group(n, CaptureType))
    ensures multiset(SortMovesByValue(n.pos, Group(n, QuietType))) == multiset(Group(n, QuietType))
  {
    GroupLegal(n);
    SortMovesByValueSpec(n.pos, Group(n, CheckType));
    SortMvvLvaSpec(n.pos, Group(n, CaptureType));
    SortMovesByValueSpec(n.pos, Group(n, QuietType));
  }

  /** Moves of rank 0, then of rank 1, then of rank 2, are in rank order. */
  lemma RankedConcat(a: seq<Move>, b: seq<Move>, c: seq<Move>)
    requires forall m :: m in a ==> ClassRank(m) == 0
    requires forall m :: m in b ==> ClassRank(m) == 1
    requires forall m :: m in c ==> ClassRank(m) == 2
    ensures forall i, j :: 0 <= i < j < |a + b + c| ==> ClassRank((a + b + c)[i]) <= ClassRank((a + b + c)[j])
  {
    var r := a + b + c;
    forall i | 0 <= i < |r|
      ensures ClassRank(r[i]) == if i < |a| then 0 else if i < |a| + |b| then 1 else 2
    {
      if i < |a| {
        assert r[i] == a[i];
      } else if i < |a| + |b| {
        assert r[i] == b[i - |a|];
      } else {
        assert r[i] == c[i - |a| - |b|];
      }
    }
  }

  /** The sorted buckets hold the same moves as the buckets, ranked by their class. */
  lemma SortedGroupMembers(n: Node)
    requires MovesLegal(n)
    ensures AllLegal(n.pos, Group(n, CheckType))
    ensures AllCaptures(n.pos, Group(n, CaptureType))
    ensures AllLegal(n.pos, Group(n, QuietType))
    ensures forall m :: m in SortMovesByValue(n.pos, Group(n, CheckType)) <==> m in Group(n, CheckType)
    ensures forall m :: m in SortMvvLva(n.pos, Group(n, CaptureType)) <==> m in Group(n, CaptureType)
    ensures forall m :: m in SortMovesByValue(n.pos, Group(n, QuietType)) <==> m in Group(n, QuietType)
  {
    SortedGroups(n);
    SameMembers(SortMovesByValue(n.pos, Group(n, CheckType)), Group(n, CheckType));
    SameMembers(SortMvvLva(n.pos, Group(n, CaptureType)), Group(n, CaptureType));
    SameMembers(SortMovesByValue(n.pos, Group(n, QuietType)), Group(n, QuietType));
  }

  /**
   * The prioritized order is a permutation of the legal moves in which every
   * check precedes every capture and every capture precedes every quiet move.
   */
  lemma PrioritizeLegalMovesSpec(n: Node)
    requires MovesLegal(n)
    ensures multiset(PrioritizeLegalMoves(n)) == multiset(Moves(n))
    ensures forall m :: m in PrioritizeLegalMoves(n) <==> m in Moves(n)
    ensures forall i, j :: 0 <= i < j < |PrioritizeLegalMoves(n)| ==>
      ClassRank(PrioritizeLegalMoves(n)[i]) <= ClassRank(PrioritizeLegalMoves(n)[j])
  {
    SortedGroups(n);
    SortedGroupMembers(n);
    var checks := SortMovesByValue(n.pos, Group(n, CheckType));
    var captures := SortMvvLva(n.pos, Group(n, CaptureType));
    var quiets := SortMovesByValue(n.pos, Group(n, QuietType));
    FilterPartition3(Moves(n), ComposeMoveType, CheckType, CaptureType, QuietType);
    assert PrioritizeLegalMoves(n) == checks + captures + quiets;
    SameMembers(PrioritizeLegalMoves(n), Moves(n));
    RankedConcat(checks, captures, quiets);
  }

  /**
   * Out of check, the moves searched to quieten a position are the
   * prioritized order up to its first quiet move: what comes before holds no
   * quiet move, and everything after is quiet.
   */
  lemma DequietIsNoisyPrefix(n: Node)
    requires MovesLegal(n) && !n.inCheck
    ensures var d, p := GetMovesToDequiet(n), PrioritizeLegalMoves(n);
      && |d| <= |p| && d == p[..|d|]
      && (forall i :: 0 <= i < |d| ==> ClassRank(p[i]) < 2)
      && (forall i :: |d| <= i < |p| ==> ClassRank(p[i]) == 2)
  {
    SortedGroupMembers(n);
    var checks := SortMovesByValue(n.pos, Group(n, CheckType));
    var captures := SortMvvLva(n.pos, Group(n, CaptureType));
    var quiets := SortMovesByValue(n.pos, Group(n, QuietType));
    var d, p := GetMovesToDequiet(n), PrioritizeLegalMoves(n);
    assert d == checks + captures && p == d + quiets;
    assert p[..|d|] == d;
    forall i | 0 <= i < |d|
      ensures ClassRank(p[i]) < 2
    {
      assert p[i] == d[i];
      if i < |checks| {
        assert d[i] == checks[i] && checks[i] in checks;
      } else {
        assert d[i] == captures[i - |checks|] && captures[i - |checks|] in captures;
      }
    }
    forall i | |d| <= i < |p|
      ensures ClassRank(p[i]) == 2
    {
      assert p[i] == quiets[i - |d|] && quiets[i - |d|] in quiets;
    }
  }

  /** The ranks along a prefix of a rank-ordered sequence are in rank order. */
  lemma RankedPrefix(p: seq<Move>, d: seq<Move>)
    requires forall i, j :: 0 <= i < j < |p| ==> ClassRank(p[i]) <= ClassRank(p[j])
    requires |d| <= |p| && d == p[..|d|]
    ensures forall i, j :: 0 <= i < j < |d| ==> ClassRank(d[i]) <= ClassRank(d[j])
  {
    forall i, j | 0 <= i < j < |d|
      ensures ClassRank(d[i]) <= ClassRank(d[j])
    {
      assert d[i] == p[i] && d[j] == p[j];
    }
  }

  /**
   * Out of check, the moves that can disturb a quiet position: exactly the
   * legal checks and captures, each once, and no quiet move; they are the
   * prioritized order up to its first quiet move, so checks come before
   * captures. In check, every legal move in the prioritized order.
   */
  lemma GetMovesToDequietSpec(n: Node)
    requires MovesLegal(n)
    ensures n.inCheck ==> GetMovesToDequiet(n) == PrioritizeLegalMoves(n)
    ensures n.inCheck ==> multiset(GetMovesToDequiet(n)) == multiset(Moves(n))
    ensures !n.inCheck ==>
      multiset(GetMovesToDequiet(n)) == multiset(Group(n, CheckType) + Group(n, CaptureType))
    ensures !n.inCheck ==> forall m :: m in GetMovesToDequiet(n) <==> m in Moves(n) && (m.givesCheck || m.isCapture)
    ensures !n.inCheck ==>
      var d, p := GetMovesToDequiet(n), PrioritizeLegalMoves(n);
      && |d| <= |p| && d == p[..|d|]
      && (forall i :: 0 <= i < |d| ==> ClassRank(p[i]) < 2)
      && (forall i :: |d| <= i < |p| ==> ClassRank(p[i]) == 2)
    ensures forall i, j :: 0 <= i < j < |GetMovesToDequiet(n)| ==>
      ClassRank(GetMovesToDequiet(n)[i]) <= ClassRank(GetMovesToDequiet(n)[j])
    ensures forall m :: m in GetMovesToDequiet(n) ==> m in Moves(n)
  {
    PrioritizeLegalMovesSpec(n);
    if !n.inCheck {
      SortedGroups(n);
      SameMembers(GetMovesToDequiet(n), Group(n, CheckType) + Group(n, CaptureType));
      DequietIsNoisyPrefix(n);
      RankedPrefix(PrioritizeLegalMoves(n), GetMovesToDequiet(n));
    }
  }

  /** The prioritized moves are moves of the node. */
  lemma PrioritizedMovesOfNode(n: Node)
    requires MovesLegal(n)
    ensures MovesOfNode(n, PrioritizeLegalMoves(n))
  {
    PrioritizeLegalMovesSpec(n);
  }

  /** The moves searched to quieten a node are moves of the node. */
  lemma DequietMovesOfNode(n: Node)
    requires MovesLegal(n)
    ensures MovesOfNode(n, GetMovesToDequiet(n))
  {
    GetMovesToDequietSpec(n);
  }

  /** Both orderings the searchers use answer with legal moves of the node. */
  lemma SorterOrderers()
    ensures IsOrderer(PrioritizeLegalMoves) && IsOrderer(GetMovesToDequiet)
  {
    forall n | WellFormed(n)
      ensures MovesOfNode(n, PrioritizeLegalMoves(n)) && MovesOfNode(n, GetMovesToDequiet(n))
    {
      PrioritizedMovesOfNode(n);
      DequietMovesOfNode(n);
    }
  }
}
