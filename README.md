# chess-ai: a verified model of the engine's search, ordering and evaluation

This project models the core of the chess engine `chess-ai` in Dafny and proves what that core promises. It covers:

- the depth-or-age transposition table;
- the move orderers: check/capture/quiet buckets, most-valuable-victim/least-valuable-aggressor order, and ordering by move value;
- the piece-square evaluator and the endgame classifier;
- three searchers:
  - the negamax searcher of `src/searcher.py`;
  - the max/min alpha-beta searcher of `src/move_generator.py`;
  - the older fail-hard searcher of `move_generator.py` with its evaluator `evaluate.py`;
- the perft node counter;
- the board serialiser that feeds the learned evaluator.

The rules library the engine is built on is replaced by two abstractions.

- **The board** is a `seq<Option<Piece>>` of 64 squares, numbered a1 = 0 to h8 = 63 (`Chess`).
- **The game tree** is a `Node` (`GameTree`). A node carries:
  - its position;
  - its check, checkmate, stalemate, game-over and variant flags;
  - its legal moves in generator order, each paired with the child node it leads to.

  Each move carries its capture, en-passant, gives-check and promotion flags. Pushing a move and popping it again is modelled as descending to that move's child. The parent is a value and never changes, so the push/pop discipline holds by construction.

Scores are `Score = NegInf | Fin(int) | PosInf` (`Scores`), standing in for the floating-point infinities.

Each module follows one source file:

| module | source |
|---|---|
| `TranspositionTable` | `src/transposition_table.py` |
| `Ordering`, `MoveSorter` | `src/move_sorter.py` |
| `Evaluate` | `src/evaluate.py` |
| `BoardEval` | `src/board.py` |
| `Searcher`, `SearcherFacts` | `src/searcher.py` |
| `Perft` | `src/perft.py` |
| `MoveGenerator`, `MoveGeneratorFacts` | `src/move_generator.py` |
| `LegacyEvaluate` | `evaluate.py` |
| `LegacyMoveGenerator`, `LegacyMoveGeneratorFacts` | `move_generator.py` |
| `Serialize` | `serialize.py` |

`AlphaBeta` holds the score reasoning the searchers share. This is the window bound that relates a pruned search to the unpruned one, one move step at a time, and the root-move pick loop of the two max/min searchers.

Code that changes state step by step is imperative Dafny:

- the transposition table is a class over an `array`;
- `EngineBoard` and `Engine` are classes with the source's fields;
- the search loops, the grouping loop, the evaluation loops, perft and the serialiser are methods with loops.

Each method is proved equal to a specification function. The lemmas are stated about those functions.

All three searchers are compared with the same search run without cutoffs (the "unpruned value"). If the result is at or below alpha, it bounds the unpruned value from above. If it lies strictly inside the window, it is the unpruned value. If it is at or above beta, it bounds the unpruned value from below. Under the full window, therefore, each root move of a max/min searcher gets its unpruned value. The negamax root, which is searched with the full window, returns the unpruned value of the root and names the first prioritized move that reaches it.

Some behaviours of the code are easy to misread, and the model keeps them as written:

- The transposition table replaces an entry when the new one is older but deeper, because the replace test is an OR. So a stored entry does not always carry the greatest age (`DeeperOlderEntryEvicts`).
- The endgame test ignores rooks.
- `src/searcher.py`'s negamax scores a node with no legal moves that is not checkmate as minus infinity, not as a draw.
- The endgame king table is read as written, without the rank flip.
- In `src/searcher.py`, a checkmated root or a root depth of 0 makes negamax return a bare score. `next_move` cannot unpack that into a move and a value. The model keeps this as the outcome `UnpackError`.

## Model

| member | source | states |
|---|---|---|
| TranspositionTable.Index | src/transposition_table.py:40 | the slot of a key lies in [0, table size) and is the key modulo the table size |
| TranspositionTable.Table.constructor | src/transposition_table.py:34-35 | a new table has every one of the 1048583 slots empty, so every entry is in its own slot |
| TranspositionTable.Table.Replace | src/transposition_table.py:39-44 | the new slots are the old ones with the entry put in its slot by the replacement rule, and every entry stays in the slot of its own key |
| TranspositionTable.Table.Get | src/transposition_table.py:46-55 | the answer is the probe of the key's slot at the requested depth, and the table is not changed |
| TranspositionTable.PutSpec | src/transposition_table.py:39-44 | only the key's slot can change; an empty slot, a greater age or a greater depth stores the entry; otherwise nothing changes |
| TranspositionTable.PutKeepsOlderShallower | src/transposition_table.py:43 | an entry neither younger nor deeper than the stored one leaves the table unchanged |
| TranspositionTable.ProbeSpec | src/transposition_table.py:46-55 | a hit happens exactly when the slot holds an entry with the same key and at least the requested depth, and the hit is that entry |
| TranspositionTable.EmptyInOwnSlots | src/transposition_table.py:34-35 | a new, empty table keeps every entry in the slot of its own key |
| TranspositionTable.PutKeepsOwnSlots | src/transposition_table.py:39-44 | since an entry is only ever written to the slot of its own key, offering one keeps every entry in its own slot |
| TranspositionTable.ProbeTableWide | src/transposition_table.py:39-55 | with every entry in its own slot, a lookup hits exactly when some slot of the whole table holds an entry with the key asked for and at least the requested depth, returning that entry, and misses exactly when no slot does |
| TranspositionTable.CollisionIsAMiss | src/transposition_table.py:51-52 | a different key that lands in the same slot finds nothing |
| TranspositionTable.StoreIfEmpty | src/tests/transposition_table.py:13-20 | an entry put into an empty slot is found again at its own depth |
| TranspositionTable.ReplaceIfAgeIsGreater | src/tests/transposition_table.py:22-31 | a younger entry of equal depth replaces the stored one |
| TranspositionTable.ReplaceIfDepthIsGreaterAndAgeEqual | src/tests/transposition_table.py:33-42 | a deeper entry of equal age replaces the stored one |
| TranspositionTable.DoNotReplaceIfDepthIsLesserAndAgeEqual | src/tests/transposition_table.py:44-53 | a shallower entry of equal age leaves the deeper one in place |
| TranspositionTable.DeeperOlderEntryEvicts | src/transposition_table.py:43 | a deeper but older entry evicts a younger one, so the stored age can go down |
| Ordering.FilterAppend | src/move_sorter.py:51-53 | selecting one key distributes over concatenation |
| Ordering.FilterMembers | src/move_sorter.py:51-53 | an element is in a bucket exactly when it is in the input with that key |
| Ordering.FilterCounts | src/move_sorter.py:51-53 | a bucket holds every element with its key, as often as it occurs in the input |
| Ordering.FilterPartition3 | src/move_sorter.py:26-32 | when every key is one of three, the three buckets together are a permutation of the input |
| Ordering.FilterPartition2 | src/move_generator.py:150-160 | when every key is one of two, the two buckets together are a permutation of the input |
| Ordering.SortBySorted | src/move_sorter.py:6 | the sort orders by key and is a permutation of its input |
| Ordering.SortByStable | src/move_sorter.py:6 | among elements of equal key, the sorted order is the input order, as Python's sort keeps it |
| Ordering.SortByPermutesMoves | src/move_sorter.py:21 | sorting never adds, drops or duplicates a move |
| MoveSorter.GroupBy | src/move_sorter.py:48-55 | each bucket is what it started with plus the input elements with its key, in input order |
| MoveSorter.ComposeMoveType | src/move_sorter.py:57-66 | a checking move is 'check' even when it also captures; a non-checking capture is 'capture'; every other move is 'quiet' |
| MoveSorter.SortMovesByValueSpec | src/move_sorter.py:5-6 | a permutation of the input, highest ordering value first, stable among equal values |
| MoveSorter.DetermineVictimAndAggressorTypes | src/move_sorter.py:8-15 | en passant is a pawn taking a pawn; otherwise victim minus aggressor is the capture value, and the aggressor is the moving piece |
| MoveSorter.SortMvvLvaSpec | src/move_sorter.py:18-21 | a permutation of the captures, most valuable victim first, then least valuable aggressor, stable among equal keys |
| MoveSorter.EnPassantKey | src/move_sorter.py:9-10 | an en-passant capture sorts under key (-100, 100) |
| MoveSorter.Group | src/move_sorter.py:26 | a bucket holds exactly the legal moves of its type |
| MoveSorter.RankedConcat | src/move_sorter.py:32 | checks, then captures, then quiet moves are in class order |
| MoveSorter.PrioritizeLegalMovesSpec | src/move_sorter.py:23-32 | a permutation of the legal moves with every check before every capture and every capture before every quiet move |
| MoveSorter.GetMovesToDequietSpec | src/move_sorter.py:34-45 | in check: exactly the prioritized order; otherwise exactly the legal checks and captures, each once, as the prioritized order up to its first quiet move, so every check before every capture |
| MoveSorter.DequietIsNoisyPrefix | src/move_sorter.py:23-45 | out of check, the dequiet moves are a prefix of the prioritized order holding no quiet move, and everything after it is quiet |
| MoveSorter.SorterOrderers | src/move_sorter.py:23-45 | both orderings answer with legal moves of the node |
| Evaluate.FlipRanks | src/evaluate.py:94-99 | row `i` of the flipped table is written row `7 - i` |
| Evaluate.FlipRanksTwice | src/evaluate.py:94-99 | flipping twice gives the table back |
| Evaluate.Flatten | src/evaluate.py:94-99 | entry `s` is row `s / 8`, file `s % 8` |
| Evaluate.MiddlegameTableAt | src/evaluate.py:93-100 | entry `rank * 8 + file` of a middlegame table is written row `7 - rank`, file `file` |
| Evaluate.ReverseAt | src/evaluate.py:117 | a reversed table holds entry `63 - s` at `s` |
| Evaluate.PositionValueMirror | src/evaluate.py:116-121 | a piece of one colour on `s` is worth what the same piece of the other colour is worth on `63 - s` |
| Evaluate.TableChoice | src/evaluate.py:109-114 | the endgame king table, as written, is used exactly for a king on an endgame board; otherwise the flipped middlegame table |
| Evaluate.SampleLookups | src/evaluate.py:6-99 | sample lookups: a pawn on a2 is worth 5 and on e2 -20, Black's on e7 -20, and the king on g1 30 in the middlegame and -40 in the endgame |
| Evaluate.PositionValueChange | src/evaluate.py:143-147 | the change plus the origin value is the target value |
| Evaluate.PositionValueChangeAntisymmetric | src/evaluate.py:143-147 | swapping origin and target negates the change; a null move changes nothing |
| Evaluate.CaptureValue | src/evaluate.py:150-157 | en passant is worth a pawn; otherwise the victim's value less the capturing piece's |
| Evaluate.EvaluateMoveValue | src/evaluate.py:125-141 | a promotion is worth the promoted piece; otherwise the capture value (if a capture) plus the moving piece's positional gain for the side to move |
| Evaluate.QuietMoveValue | src/evaluate.py:129-141 | a quiet move is valued by its positional gain alone |
| Evaluate.KingsPawnOpening | src/evaluate.py:125-147 | e2-e4 by a white pawn is worth 40 in the middlegame |
| BoardEval.InitializePieceCount | src/board.py:5-13 | a count of zero for each of the six piece types |
| BoardEval.PieceCountsAt | src/board.py:47-62 | each collected count is the number of such pieces on the board |
| BoardEval.OnlyQueensAndMinorsDecide | src/board.py:15-18 | only the queen, bishop and knight counts decide the side test; rooks are not consulted |
| BoardEval.EndgameByCounts | src/board.py:64 | the board is an endgame exactly when both colours pass the side test |
| BoardEval.CountsDecideEndgame | src/board.py:47-64 | counts that are the board's decide the endgame test as the board does |
| BoardEval.ComputeIsEndgame | src/board.py:47-64 | the counting loop decides exactly the endgame predicate |
| BoardEval.CountsCoverPieces | src/board.py:53-62 | each occupied square is counted once under its colour and type, so a colour's counts add up to its number of pieces |
| BoardEval.EmptyBoardValue | src/board.py:25-41 | the empty board is worth 0 |
| BoardEval.BoardValueUpdate | src/board.py:25-41 | changing one square changes the value by exactly that square's difference |
| BoardEval.MirrorNegatesValue | src/board.py:37-39 | swapping every piece's colour and moving it from `s` to `63 - s` negates the value for either endgame flag |
| BoardEval.MirrorSwapsCounts | src/board.py:53-62 | the mirrored board has the other colour's counts |
| BoardEval.MirrorKeepsEndgame | src/board.py:64 | mirroring keeps the endgame flag |
| BoardEval.MirrorNegatesEvaluation | src/board.py:21-23 | with the flag each board computes for itself, mirroring negates the evaluation |
| BoardEval.EngineBoard.constructor | src/board.py:21-23 | the endgame flag is computed once, at construction, from the placement |
| BoardEval.EngineBoard.Value | src/board.py:25-41 | the valuation loop returns the sum, over occupied squares, of piece value plus placement value, signed by colour |
| BoardEval.TestBoardIsEndgame | src/tests/board.py:9-10 | the test position is an endgame |
| BoardEval.TestBoardValue | src/tests/board.py:9-11 | the test position, valued with the endgame flag computed from its own pieces, is worth -290 |
| BoardEval.BlackSquareValue | src/evaluate.py:117 | a black piece is valued as the white piece on the mirrored square, negated |
| Searcher.Engine.constructor | src/searcher.py:8-10 | the engine keeps its board and depth, and searches with the move sorter's orderings |
| Searcher.Engine.Quiescence | src/searcher.py:13-43 | the quiescence method computes the quiescence score |
| Searcher.Engine.Negamax | src/searcher.py:46-73 | the negamax method computes the negamax result, a pair at the root and a bare score below it |
| Searcher.Engine.SearchMoves | src/searcher.py:57-69 | the move loop computes the loop's best value and best move |
| Searcher.Engine.NextMove | src/searcher.py:75-93 | the root call's outcome is the root choice |
| Searcher.NLoopAdvance | src/searcher.py:58-69 | one loop turn negates the child's score, raises alpha and the best value, and records the move at the root when it is a strict improvement |
| SearcherFacts.StandPatPerspective | src/searcher.py:19 | stand-pat is the static score for White to move and its negation for Black |
| SearcherFacts.QuiescenceExits | src/searcher.py:16-32 | a checkmate scores minus infinity; below depth -10 and without noisy moves stand-pat; a side not in check whose stand-pat reaches beta returns beta |
| SearcherFacts.QLoopFailHard | src/searcher.py:34-43 | the loop returns beta once a score reaches it, and otherwise a raised alpha at least the entry alpha and below beta |
| SearcherFacts.QuiescenceWindow | src/searcher.py:24-43 | the score is beta or lies in [alpha, beta), and is at least stand-pat when not in check |
| SearcherFacts.NegamaxExits | src/searcher.py:49-53 | a checkmate scores minus infinity; depth 0 is quiescence with the same window; only the root returns a pair; no moves give minus infinity |
| SearcherFacts.ExploredScore | src/searcher.py:58-62 | each explored score is its move searched with the window (-beta, -alpha) after alpha rose through every earlier score |
| SearcherFacts.ExploredCutoff | src/searcher.py:68-69 | the loop stops at the first score that lifts alpha to beta, or runs out of moves |
| SearcherFacts.NLoopResult | src/searcher.py:57-73 | alpha and the best value are the running maxima of the explored scores; at the root the best move is where the best value last rose strictly |
| SearcherFacts.RootSearch | src/searcher.py:63-72 | the root returns the greatest explored score and the first move reaching it, or no move when every score is minus infinity |
| SearcherFacts.NegWindow | src/searcher.py:60 | negating a child's result found in the window (-beta, -alpha) gives a bound in the window (alpha, beta) on the negated child value |
| SearcherFacts.QuiescenceBounds | src/searcher.py:13-43 | quiescence in a non-empty window bounds the unpruned quiescence value (stand-pat out of check, or any noisy move, negated) as the window says |
| SearcherFacts.QLoopBounds | src/searcher.py:34-43 | the fail-hard loop keeps alpha below beta, at least the unpruned value so far, and equal to it once above the entry alpha |
| SearcherFacts.QuiescenceFullWindow | src/searcher.py:13-43 | with the full window, quiescence is the unpruned quiescence value |
| SearcherFacts.NegamaxBounds | src/searcher.py:46-73 | negamax in a non-empty window bounds the unpruned negamax value as the window says |
| SearcherFacts.NLoopBounds | src/searcher.py:57-69 | the loop's best value bounds the unpruned maximum so far, and equals it once above the entry alpha |
| SearcherFacts.NegamaxFullWindow | src/searcher.py:77-84 | with the full window, negamax is the unpruned negamax value |
| SearcherFacts.NScoreWindow | src/searcher.py:58-62 | a move searched with any non-empty window meets it against the move's unpruned value |
| SearcherFacts.NVLoopIsMaxOf | src/searcher.py:57-66 | the unpruned loop is the running maximum of the move values |
| SearcherFacts.NegamaxValueIsBestMoveValue | src/searcher.py:55-73 | past the exits, the unpruned negamax value is the greatest move value, and minus infinity when there is no move |
| SearcherFacts.RootSearchUnpruned | src/searcher.py:57-72 | the root score is the unpruned root value; no best move exactly when it is minus infinity; otherwise the first prioritized move whose unpruned value reaches it |
| SearcherFacts.NextMoveByValue | src/searcher.py:75-93 | past a checkmate and depth 0: the first prioritized move of greatest unpruned value; when every move loses outright, the first prioritized move, or no move when there is none |
| SearcherFacts.NextMoveOutcome | src/searcher.py:84-88 | an unpacking error exactly at a checkmated root or depth 0; no move exactly when there is no legal move; otherwise the move the root search found, or the first prioritized one when it found none; always a legal move |
| Perft.GeneratorOrder | src/perft.py:11 | generator order answers with each legal move exactly once |
| Perft.PrioritizedOrder | src/perft.py:11 | the prioritized order is a permutation of the legal moves |
| Perft.Perft | src/perft.py:5-18 | the counting loop returns the number of move paths of that depth |
| Perft.PrioritizedPerft | src/perft.py:5-18 | counting in prioritized order gives the count in generator order |
| Perft.PerftZero | src/perft.py:8-9 | depth 0 counts 1 |
| Perft.PerftNoMoves | src/perft.py:11-18 | a node without moves counts 0 at positive depth |
| Perft.PerftOne | src/perft.py:11-18 | depth 1 counts the legal moves |
| Perft.SumOverPermutation | src/perft.py:13-15 | a sum of per-move counts does not depend on the order of the moves |
| Perft.OrderIndependent | src/perft.py:11 | any two orderers that permute the legal moves give the same count |
| Perft.PerftInGeneratorOrder | src/perft.py:11 | the prioritized count equals the generator-order count |
| MoveGenerator.DetermineMoveType | src/move_generator.py:168-175 | a move is 'nonquiet' exactly when it captures or gives check; otherwise 'quiet' |
| MoveGenerator.GroupBy | src/move_generator.py:150-160 | the dictionary holds exactly the two groups, each the input elements with its key in input order, together a permutation of the input |
| MoveGenerator.GetMovesToDequietSpec | src/move_generator.py:40-43 | each legal capture and check exactly once, no quiet move, highest ordering value first |
| MoveGenerator.DequietIsNonquietPart | src/move_generator.py:28-43 | the moves searched to quieten a node are the sorted non-quiet group, the first part of the prioritized moves |
| MoveGenerator.PrioritizeLegalMovesSpec | src/move_generator.py:28-36 | a permutation of the legal moves in which every capture or check comes before every quiet move |
| MoveGenerator.PrioritizedGroupsByValue | src/move_generator.py:32-36 | each of the two groups is sorted by ordering value, highest first |
| MoveGenerator.GeneratorOrderers | src/move_generator.py:28-43 | both orderings answer with legal moves of the node |
| MoveGenerator.EngineSetup | src/move_generator.py:124 | the searcher's own orderings are valid orderers |
| MoveGenerator.Quiescence | src/move_generator.py:49-106 | the quiescence method computes the quiescence score |
| MoveGenerator.QuiescenceMax | src/move_generator.py:80-92 | the maximizer's loop computes the loop function |
| MoveGenerator.QuiescenceMin | src/move_generator.py:93-106 | the minimizer's loop computes the loop function |
| MoveGenerator.Minimax | src/move_generator.py:111-147 | the minimax method computes the minimax score |
| MoveGenerator.MinimaxMax | src/move_generator.py:126-136 | the maximizer's loop computes the best value, stopping once alpha reaches beta |
| MoveGenerator.MinimaxMin | src/move_generator.py:137-147 | the minimizer's loop computes the best value, stopping once beta reaches alpha |
| MoveGenerator.EvaluateMove | src/move_generator.py:162-166 | a move's value is its child searched one ply shallower with the full window by the other side |
| MoveGenerator.NextMove | src/move_generator.py:177-202 | the root loop's move is the root choice |
| MoveGeneratorFacts.QuiescenceExits | src/move_generator.py:50-78 | checkmate gives minus infinity for the maximizer and plus infinity for the minimizer; stalemate 0; depth 0 stand-pat; a stand-pat beyond the bound returns the bound; no noisy moves stand-pat |
| MoveGeneratorFacts.QuiescenceBounds | src/move_generator.py:64-106 | quiescence in a non-empty window bounds the unpruned quiescence value (stand-pat or any noisy move) as the window says |
| MoveGeneratorFacts.QMaxLoopBounds | src/move_generator.py:80-92 | the maximizer's loop keeps alpha below beta, and it equals the unpruned running maximum once it is above the entry alpha |
| MoveGeneratorFacts.QMinLoopBounds | src/move_generator.py:93-106 | the minimizer's loop, symmetric |
| MoveGeneratorFacts.QuiescenceFullWindow | src/move_generator.py:122 | with the full window, quiescence is the unpruned quiescence value |
| MoveGeneratorFacts.MinimaxHorizon | src/move_generator.py:121-122 | at depth 0 minimax is the unpruned quiescence value, whatever window minimax was given |
| MoveGeneratorFacts.MinimaxBounds | src/move_generator.py:111-147 | minimax in a non-empty window bounds the unpruned minimax value as the window says |
| MoveGeneratorFacts.MaxLoopBounds | src/move_generator.py:126-136 | the maximizer's best value equals the unpruned running maximum while it is above the entry alpha |
| MoveGeneratorFacts.MinLoopBounds | src/move_generator.py:137-147 | the minimizer's loop, symmetric |
| MoveGeneratorFacts.MinimaxFullWindow | src/move_generator.py:164 | with the full window, pruning gives the unpruned minimax value |
| MoveGeneratorFacts.MoveValuesAreUnpruned | src/move_generator.py:162-166 | the value of every root move is the unpruned value of its child |
| MoveGeneratorFacts.NextMoveChoiceSpec | src/move_generator.py:184-197 | no move exactly when there is no prioritized move; White gets the last move of greatest unpruned value, Black the last of least |
| AlphaBeta.FullWindowExact | src/move_generator.py:164 | under the full window the bounds pin the result to the unpruned value |
| AlphaBeta.FailHardMaxStep | move_generator.py:44-52 | one maximizer step that returns its raised alpha keeps the window invariant, or on a cutoff returns a lower bound |
| AlphaBeta.FailHardMinStep | move_generator.py:53-61 | one minimizer step, symmetric |
| AlphaBeta.FailSoftMaxStep | src/move_generator.py:126-136 | one maximizer step that tracks a separate best value keeps the window invariant |
| AlphaBeta.FailSoftMinStep | src/move_generator.py:137-147 | one minimizer step, symmetric |
| AlphaBeta.PickWhiteStrict | move_generator.py:122-126 | White with a strict comparison keeps the first move of greatest value, and none when every value is minus infinity |
| AlphaBeta.PickWhiteLoose | src/move_generator.py:188-194 | White with a non-strict comparison keeps the last move of greatest value, and one whenever there is a move |
| AlphaBeta.PickBlackStrict | move_generator.py:127-129 | Black with a strict comparison keeps the first move of least value, and none when every value is plus infinity |
| AlphaBeta.PickBlackLoose | src/move_generator.py:195-197 | Black with a non-strict comparison keeps the last move of least value, and one whenever there is a move |
| AlphaBeta.PickBlackIsNegated | move_generator.py:122-129 | Black's pick is White's pick over the negated values |
| LegacyEvaluate.GetPositionValueSpec | evaluate.py:82-101 | White reads written row `7 - s / 8`; Black on `s` equals White on `63 - s`; each lookup equals the newer evaluator's outside the endgame |
| LegacyEvaluate.EvaluateBoard | evaluate.py:106-119 | the evaluation loop returns the middlegame board value |
| LegacyEvaluate.LegacyValue | evaluate.py:106-119 | the older evaluation of a whole board is its middlegame board value |
| LegacyEvaluate.LegacyEvaluationSymmetry | evaluate.py:99-119 | the empty board scores 0, and mirroring the board negates the score |
| LegacyEvaluate.LostValueVsCaptureValue | evaluate.py:121-129 | victim minus attacker on ordinary captures; 0 where the target is empty, as for en passant and non-capturing checks |
| LegacyMoveGenerator.DequietCandidates | move_generator.py:28 | the candidates are exactly the legal moves that capture or give check, or every legal move at a checkmate |
| LegacyMoveGenerator.GetDequietMovesSpec | move_generator.py:26-30 | a permutation of the candidates sorted by ascending capture score, stable among equal scores |
| LegacyMoveGenerator.Quiesce | move_generator.py:35-61 | the quiescence method computes the quiescence score |
| LegacyMoveGenerator.QuiesceMax | move_generator.py:44-52 | the maximizer's loop computes the loop function |
| LegacyMoveGenerator.QuiesceMin | move_generator.py:53-61 | the minimizer's loop computes the loop function |
| LegacyMoveGenerator.Minimax | move_generator.py:66-106 | the minimax method computes the minimax score |
| LegacyMoveGenerator.MinimaxMax | move_generator.py:89-97 | the maximizer's loop computes the loop function |
| LegacyMoveGenerator.MinimaxMin | move_generator.py:98-106 | the minimizer's loop computes the loop function |
| LegacyMoveGenerator.EvaluateMove | move_generator.py:109-113 | a move's value is its child searched one ply shallower with the full window, with the given side passed on unchanged |
| LegacyMoveGenerator.NextMove | move_generator.py:115-134 | the root loop's move is the root choice, each move valued for the side that replies |
| LegacyMoveGeneratorFacts.QuiesceExits | move_generator.py:36-42 | a finished game, depth 0 and a position without captures or checks all score the static evaluation |
| LegacyMoveGeneratorFacts.QuiesceKeepsBound | move_generator.py:44-61 | the maximizer never returns less than alpha and the minimizer never more than beta |
| LegacyMoveGeneratorFacts.QuiesceBounds | move_generator.py:35-61 | quiescence in a non-empty window bounds the unpruned value over the captures and checks as the window says |
| LegacyMoveGeneratorFacts.QMaxLoopBounds | move_generator.py:44-52 | the maximizer's alpha stays below beta and equals the unpruned running maximum once it is above the entry alpha |
| LegacyMoveGeneratorFacts.QMinLoopBounds | move_generator.py:53-61 | the minimizer's loop, symmetric |
| LegacyMoveGeneratorFacts.QuiesceFullWindow | move_generator.py:35-61 | with the full window, quiescence is the unpruned quiescence value |
| LegacyMoveGeneratorFacts.MinimaxExits | move_generator.py:67-83 | a variant win or loss scores plus or minus infinity by the side; a finished game the static evaluation; depth 0 hands the same window to quiescence 3 plies deep |
| LegacyMoveGeneratorFacts.MinimaxBounds | move_generator.py:66-106 | minimax in a non-empty window bounds the unpruned minimax value as the window says |
| LegacyMoveGeneratorFacts.MaxLoopBounds | move_generator.py:89-97 | the maximizer's loop invariant, as for quiescence |
| LegacyMoveGeneratorFacts.MinLoopBounds | move_generator.py:98-106 | the minimizer's loop, symmetric |
| LegacyMoveGeneratorFacts.MinimaxFullWindow | move_generator.py:111 | with the full window, minimax is the unpruned minimax value |
| LegacyMoveGeneratorFacts.QuiesceValueFinite | move_generator.py:36-42 | without variant outcomes every unpruned quiescence value is finite |
| LegacyMoveGeneratorFacts.MinimaxValueFinite | move_generator.py:67-106 | without variant outcomes every unpruned minimax value is finite |
| LegacyMoveGeneratorFacts.MoveValuesAreUnpruned | move_generator.py:109-113 | the value of every root move is the unpruned value of its child for the side that replies |
| LegacyMoveGeneratorFacts.NextMoveChoiceSpec | move_generator.py:115-134 | White gets the first move of greatest unpruned value, Black the first of least; none exactly when every value is the worst score for the side to move |
| LegacyMoveGeneratorFacts.NextMoveFoundInStandardGame | move_generator.py:122-129 | without variant outcomes a move is found exactly when there is a legal move |
| Serialize.PieceIndexBijective | serialize.py:10-17 | the piece map is a bijection from the six piece types onto planes 0 to 5 |
| Serialize.ColorSign | serialize.py:5-8 | the colour map gives +1 for White and -1 for Black |
| Serialize.Initialize | serialize.py:19-28 | a fresh state of 7 planes by 64 squares, all zero |
| Serialize.Serialize | serialize.py:30-44 | the square loop and the turn-plane assignment produce the encoding, seen as 7 planes of 8 by 8 |
| Serialize.PiecePlanes | serialize.py:33-40 | an empty square is 0 on every piece plane; an occupied one is its colour's sign on its type's plane and 0 on the others |
| Serialize.TurnPlaneUniform | serialize.py:42 | plane 6 is 1 on every square when White is to move and 0 when Black is |
| Serialize.DecodeEncoded | serialize.py:33-42 | decoding the planes gives back the placement and the side to move |
| Serialize.EncodedInjective | serialize.py:33-42 | two positions with the same encoding have the same placement and side to move |

## Left out

- The rules library is left out. This covers legal move generation, check and checkmate detection, the move flags, push and pop, FEN parsing and the zobrist hash. It is replaced by the game tree and by an abstract integer key. The end-to-end move tests in `src/tests/next_move.py` need real chess rules and are not modelled.
- The leaf evaluator `evaluate` is imported by both newer searchers, but `src/evaluate.py` does not define it. It is the parameter `eval` in `Searcher` and `MoveGenerator`. `BoardEval.BoardValue` is the natural instance.
- The move orderings the searchers call are parameters of the search functions (`SearchConfig`, `Setup`). The engines instantiate them with the real orderings; the search proofs assume only that the orderings answer with legal moves.
- The tests construct `Searcher` with three arguments, while the class takes two and never consults a transposition table. The model follows the class.
- `numpy` (`flip`, `reshape`, `put`, `empty`, int8 arrays) becomes index arithmetic, sequences and arrays. `functools.lru_cache` is memoization only, and its lookups are plain functions.
- `math.inf` is a floating-point infinity. It is the `Score` type with two sentinels, and static scores are integers.
- The call counters, timers, printing and counter resets are diagnostics and are left out.
- `HashEntry.json` is string formatting and is left out.
- The value, best move and flag of a `HashEntry` are carried but never interpreted, as in the source.
- The primality of the table size is neither modelled nor needed.
- `src/communication.py`, `communication.py`, `src/api.py`, `train.py`, `main.py`, `src/decorators.py` and `src/debug_move_generator.py` are I/O, training, visualisation or diagnostics. They are not part of this model.
- `get_piece_value` in `evaluate.py` is the lookup `Evaluate.PieceValue`, because the two files' piece values are equal. The older tables equal the newer middlegame tables, and its king table is the middlegame one.
- `MoveGenerator.GroupBy` requires every key to be one of the two group names. Python would raise a `KeyError` otherwise, and `DetermineMoveType` never produces another key.
- In the older `lost_value`, the bare `except` around two board lookups becomes a test that both squares hold a piece. A non-capturing move onto an empty square, or en passant, gives 0.
- Serialize.Serialize: cells are unbounded integers rather than 8-bit ones. They only ever hold -1, 0 or 1, so nothing is lost, as `Serialize.ColorSign` and `Serialize.TurnValue` state.
