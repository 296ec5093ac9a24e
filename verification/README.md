# ChessInJava search, evaluation and PGN training-data core, in Dafny

This project models the decision-making core of the two chess engines in
ChessInJava, JChess and mChess:

- the move-search strategies:
  - JChess `MiniMax` (plain fixed-depth minimax);
  - JChess `AlphaBeta` (fail-hard alpha-beta);
  - mChess `AlphaBetaWithMoveOrdering` (fail-soft alpha-beta over SMART-sorted moves, with diagnostic counters);
  - mChess `StockAlphaBeta` (fail-hard alpha-beta over STANDARD/EXPENSIVE-sorted moves, with a budgeted quiescence extension and a mate-found early stop);
  - mChess `MiniMax`, which deals the root moves to six `MiniMaxThread` workers and lets a seventh pick among their winners;
- the root-candidate vetoes of the mChess strategies (`checkKnightFork`, `futurePawnAttack`, `checkQueenEscapes`);
- the move comparators and Guava's stable `immutableSortedCopy`;
- the two `StandardBoardEvaluator`s;
- the PGN pipeline that turns game records into neural-network training pairs:
  - `PGNParser.getPGNString`;
  - the text cleaning, splitting and replay of `PGNChess.playOutPGNPiece/File/Rank`;
  - the `main` loop over a file.

A position is a finite game tree (`GameTree.Pos`). Each position carries:

- the side to move;
- the 64 tiles;
- the check, checkmate and stalemate flags;
- the move log;
- the legal moves, each with the status of its transition and the position it leads to.

The search recursion therefore terminates on the tree. The static evaluator
is a parameter `(Pos, depth) -> Int32`. Java `int` values are the subset type
`Int32`. An evaluator computes its score exactly and then wraps it once with
`Wrap32`. `Common.JavaIntArithmetic` shows that this agrees with wrapping after
every `+`, `-` and `*`. Java `null` (and the engine's null move) is `None`.

The main results:

- Alpha-beta is the minimax value clamped to the window:
  - exactly so for JChess `AlphaBeta`;
  - fail-soft for `AlphaBetaWithMoveOrdering`, whose sorted visiting order does not change the value;
  - exactly so for `StockAlphaBeta` once its extension budget is spent.
- The root loops of JChess `MiniMax`, JChess `AlphaBeta`, `AlphaBetaWithMoveOrdering` and the mChess `MiniMax` workers make the choice a strict or a tie-replacing selection over the plain minimax values would make. `StockAlphaBeta` is the exception: its root values come from the quiescence-extended search, and its loop stops early on a mating move. For it the model proves only that the pick changes to strictly better values and that the loop stops exactly when a mating move is picked.
- Splitting the root over six workers loses no move and picks a globally best one.
- The comparators are lexicographic orders on explicit keys, and the sort is a stable, idempotent permutation.
- Each veto is characterised by an explicit existential or universal statement.
- Both evaluators are antisymmetric in the players (modulo 2^32).
- The PGN replay writes exactly one pair per ply the winner plays, or nothing.

Behaviour of the code worth noting:

- `StockAlphaBeta` extends the search when the activity measure is strictly greater than 3.
- All three alpha-beta root loops (JChess `AlphaBeta`, `AlphaBetaWithMoveOrdering` and `StockAlphaBeta`) replace the best move only on a strictly better value, while plain minimax also replaces on ties.
- The PGN cleaning collapses double spaces in one left-to-right pass, so a run of three spaces leaves two (`PgnText.ThreeSpacesLeaveTwo`). The split then yields an empty token, which makes the game unplayable when it lies before the last two tokens; otherwise it is dropped with the result.
- The move list keeps `parts.length - 2` tokens, so on single-spaced move text on one line that ends with the result, the last move before the result is never replayed (`PgnChess.TokensOfOneLine`).

## Model

| member | source | states |
|---|---|---|
| Common.Wrap32 | JChess/src/com/chess/engine/player/ai/StandardBoardEvaluator.java:25-27 | the Java `int` an exact result becomes: congruent to it modulo 2^32, and equal to it when it is in range |
| Common.JavaIntArithmetic | JChess/src/com/chess/engine/player/ai/StandardBoardEvaluator.java:29-37 | wrapping after each `+`, `-` or `*` equals wrapping once at the end, so a chain of `int` operations is its exact value wrapped |
| Common.WrapNegatedDifference | mChess/src/com/chess/engine/player/ai/StandardBoardEvaluator.java:54-57 | Java's negation of a wrapped difference `x - y` is the wrapped difference `y - x` |
| Common.JavaDiv | mChess/src/com/chess/engine/player/ai/StandardBoardEvaluator.java:142-145 | Java's `/` truncates toward zero: quotient times divisor plus remainder is the dividend, the remainder takes the dividend's sign, and it agrees with Euclidean division on non-negative operands |
| MiniMaxSearch.MinLoopFrom | JChess/src/com/chess/engine/player/ai/MiniMax.java:95-109 | running `min`'s loop from any `lowestSeenValue` is the smaller of that start and the loop run from `Integer.MAX_VALUE` |
| MiniMaxSearch.MaxLoopFrom | JChess/src/com/chess/engine/player/ai/MiniMax.java:120-134 | running `max`'s loop from any `highestSeenValue` is the larger of that start and the loop run from `Integer.MIN_VALUE` |
| MiniMaxSearch.MinLoopIsLeast | JChess/src/com/chess/engine/player/ai/MiniMax.java:95-109 | `min`'s loop returns the least `max` value over the DONE moves it visits, or its start value when none is smaller |
| MiniMaxSearch.MaxLoopIsGreatest | JChess/src/com/chess/engine/player/ai/MiniMax.java:120-134 | `max`'s loop returns the greatest `min` value over the DONE moves it visits, or its start value when none is greater |
| MiniMaxSearch.MinValue | JChess/src/com/chess/engine/player/ai/MiniMax.java:89-110 | `min` evaluates at depth 0 or game over; otherwise it is the least `max` of a DONE child, or `Integer.MAX_VALUE` when there is none |
| MiniMaxSearch.MaxValue | JChess/src/com/chess/engine/player/ai/MiniMax.java:113-135 | `max` evaluates at depth 0 or game over; otherwise it is the greatest `min` of a DONE child, or `Integer.MIN_VALUE` when there is none |
| MiniMaxSearch.BestForMaxIsGreatest | JChess/src/com/chess/engine/player/ai/MiniMax.java:120-134 | the order-free reference fold over any list of moves yields the greatest candidate value, or `Integer.MIN_VALUE` |
| MiniMaxSearch.BestForMinIsLeast | JChess/src/com/chess/engine/player/ai/MiniMax.java:95-109 | the order-free reference fold yields the least candidate value, or `Integer.MAX_VALUE` |
| MiniMaxSearch.ValueOfAnyOrder | JChess/src/com/chess/engine/player/ai/MiniMax.java:113-135 | visiting an inner node's DONE moves in any order, with any repetition, yields the same `min` and `max` values |
| MiniMaxSearch.NotDoneIsIgnored | JChess/src/com/chess/engine/player/ai/MiniMax.java:98-106 | removing every transition that is not DONE from an inner node changes neither its `min` nor its `max` value |
| MiniMaxSearch.StrictChoice | JChess/src/com/chess/engine/player/ai/AlphaBeta.java:54-62 | strict replacement over the minimax values picks nothing iff no DONE move beats the initial bound; otherwise it picks a best DONE move with every earlier DONE move strictly worse |
| MiniMaxSearch.TiesChoice | JChess/src/com/chess/engine/player/ai/MiniMax.java:61-69 | replacement on ties picks nothing iff no move is DONE; otherwise it picks a best DONE move with every later DONE move strictly worse |
| MiniMaxSearch.Execute | JChess/src/com/chess/engine/player/ai/MiniMax.java:32-86 | `execute` returns null iff no legal move is DONE; otherwise it returns the LAST DONE move of best minimax value |
| RootSelection.SelectBest | JChess/src/com/chess/engine/player/ai/MiniMax.java:47-72 | after the root loop the tracked extreme is the best of the start and every DONE score, the other extreme is untouched, and the chosen move is DONE and attains it |
| RootSelection.SelectWithTiesTakesLast | mChess/src/com/chess/engine/player/ai/minimaxThread/MiniMaxThread.java:47-68 | with `>=` / `<=` replacement the chosen candidate is the last one attaining the best score: all later scores are strictly worse |
| RootSelection.SelectStrictTakesFirst | JChess/src/com/chess/engine/player/ai/AlphaBeta.java:39-65 | with `>` / `<` replacement the chosen candidate is the first one attaining the best score: all earlier scores are strictly worse |
| AlphaBetaSearch.MaxIsClampedMiniMax | JChess/src/com/chess/engine/player/ai/AlphaBeta.java:81-106 | alpha-beta `max` evaluates leaves exactly; otherwise it returns beta when the minimax value reaches beta, else the larger of alpha and the minimax value |
| AlphaBetaSearch.MinIsClampedMiniMax | JChess/src/com/chess/engine/player/ai/AlphaBeta.java:108-132 | alpha-beta `min` evaluates leaves exactly; otherwise it returns alpha when the minimax value falls to alpha, else the smaller of beta and the minimax value |
| AlphaBetaSearch.MaxLoopIsClamped | JChess/src/com/chess/engine/player/ai/AlphaBeta.java:91-105 | the cutoff loop of `max` returns beta or the larger of the running alpha and the plain loop's value |
| AlphaBetaSearch.MinLoopIsClamped | JChess/src/com/chess/engine/player/ai/AlphaBeta.java:118-131 | the cutoff loop of `min` returns alpha or the smaller of the running beta and the plain loop's value |
| AlphaBetaSearch.RootLoopIsStrictSelect | JChess/src/com/chess/engine/player/ai/AlphaBeta.java:39-65 | the windowed root loop makes exactly the choices of strict replacement over the plain minimax values |
| AlphaBetaSearch.Execute | JChess/src/com/chess/engine/player/ai/AlphaBeta.java:24-79 | `execute` returns null iff no DONE move strictly beats the initial bound; otherwise it returns the FIRST DONE move of best minimax value |
| AlphaBetaSearch.AgreesWithMiniMax | JChess/src/com/chess/engine/player/ai/AlphaBeta.java:24-79 | whenever alpha-beta picks a move, plain minimax picks one too, and both moves have the same best minimax value |
| MoveOrdering.LexLessTransitive | mChess/src/com/chess/engine/player/ai/StockAlphaBeta.java:35-38 | the key order the comparators induce is transitive |
| MoveOrdering.LexLessTotal | mChess/src/com/chess/engine/player/ai/StockAlphaBeta.java:35-38 | any two keys are equal or ordered one way round |
| MoveOrdering.LexLessAsymmetric | mChess/src/com/chess/engine/player/ai/StockAlphaBeta.java:35-38 | no two keys are ordered both ways |
| MoveOrdering.ChainIsLex | mChess/src/com/chess/engine/player/ai/StockAlphaBeta.java:35-38 | a `ComparisonChain` of integer comparisons is negative, zero or positive exactly as the keys compare lexicographically |
| MoveOrdering.StandardCompareIsKeyOrder | mChess/src/com/chess/engine/player/ai/StockAlphaBeta.java:28-41 | STANDARD puts castling first and then higher MVV-LVA first: it is the lexicographic order on (castling rank, -mvvlva) |
| MoveOrdering.ExpensiveCompareIsKeyOrder | mChess/src/com/chess/engine/player/ai/StockAlphaBeta.java:43-57 | EXPENSIVE puts king threats first, then castling, then higher MVV-LVA |
| MoveOrdering.SmartCompareIsKeyOrder | mChess/src/com/chess/engine/player/ai/AlphaBetaWithMoveOrdering.java:36-46 | SMART_SORT puts threatened boards first, then attacks, then castling, then more valuable movers |
| MoveOrdering.SortBy | mChess/src/com/chess/engine/player/ai/StockAlphaBeta.java:40 | `immutableSortedCopy` returns a permutation of its input |
| MoveOrdering.SortBySorted | mChess/src/com/chess/engine/player/ai/StockAlphaBeta.java:40 | the sorted copy is ordered by key |
| MoveOrdering.SortByStable | mChess/src/com/chess/engine/player/ai/StockAlphaBeta.java:40 | the sort is stable: the moves of one key keep their relative order |
| MoveOrdering.SortByIdempotent | mChess/src/com/chess/engine/player/ai/StockAlphaBeta.java:40 | sorting an already sorted list leaves it unchanged |
| MoveOrdering.SmartOrderRespectsComparator | mChess/src/com/chess/engine/player/ai/AlphaBetaWithMoveOrdering.java:29-33 | the SMART order never places a move after one the comparator ranks later, and keeps moves of equal rank in input order |
| Vetoes.AnyOfIsExists | mChess/src/com/chess/engine/player/ai/StockAlphaBeta.java:693-831 | a flag set inside a loop ends up true iff some iteration triggers it |
| Vetoes.ResolveFork | mChess/src/com/chess/engine/player/ai/StockAlphaBeta.java:809-829 | the closing `if`s of `checkKnightFork`: veto iff `secondYes` is unset and either `secondNo`, or `firstNo` without `firstYes` |
| Vetoes.ScanFlagIsExists | mChess/src/com/chess/engine/player/ai/StockAlphaBeta.java:693-808 | a fork flag is set iff some enemy knight has a checking jump with a reply that sets it |
| Vetoes.KnightForkVetoMeans | mChess/src/com/chess/engine/player/ai/StockAlphaBeta.java:693-831 | `checkKnightFork` vetoes iff no reply sets `secondYes` and either some reply sets `secondNo`, or some sets `firstNo` and none sets `firstYes` |
| Vetoes.CantKillCounts | mChess/src/com/chess/engine/player/ai/StockAlphaBeta.java:387-398 | the `cantKill` counter is the number of enemy answers minus those where a pawn takes a piece, so it reaches the answer count iff no pawn can take |
| Vetoes.FuturePawnVetoMeans | mChess/src/com/chess/engine/player/ai/StockAlphaBeta.java:349-424 | `futurePawnAttack` vetoes iff some enemy pawn advance threatens, and for every threatening advance each save attempt is ineligible or leaves a pawn capture |
| Vetoes.QueenEscapeVetoMeans | mChess/src/com/chess/engine/player/ai/AlphaBetaWithMoveOrdering.java:230-264 | `checkQueenEscapes` vetoes iff after some enemy move at most one of my replies leaves the queen unattacked |
| Vetoes.RootCandidates | mChess/src/com/chess/engine/player/ai/StockAlphaBeta.java:94-115 | `actualMoves` is the DONE legal moves no probe vetoes, in order, or all legal moves when that list would be empty; it is empty only when there are no legal moves |
| OrderedSearch.QuiescenceDepth | mChess/src/com/chess/engine/player/ai/AlphaBetaWithMoveOrdering.java:195-199 | the quiescence hook always leaves strictly less depth to search, so the recursion shrinks |
| OrderedSearch.MaxIsSoftClamp | mChess/src/com/chess/engine/player/ai/AlphaBetaWithMoveOrdering.java:147-169 | the SMART-sorted fail-soft `max` returns the larger of alpha and the minimax value when that value is below beta, and otherwise a bound between beta and the minimax value |
| OrderedSearch.MinIsSoftClamp | mChess/src/com/chess/engine/player/ai/AlphaBetaWithMoveOrdering.java:171-193 | fail-soft `min` returns the smaller of beta and the minimax value when that value is above alpha, and otherwise a bound between the minimax value and alpha |
| OrderedSearch.MaxLoopIsSoftClamp | mChess/src/com/chess/engine/player/ai/AlphaBetaWithMoveOrdering.java:157-168 | the `break`ing loop of `max` is fail-soft with respect to the order-free best value of its moves |
| OrderedSearch.MinLoopIsSoftClamp | mChess/src/com/chess/engine/player/ai/AlphaBetaWithMoveOrdering.java:181-192 | the `break`ing loop of `min` is fail-soft with respect to the order-free best value of its moves |
| OrderedSearch.StatsDoNotSteer | mChess/src/com/chess/engine/player/ai/AlphaBetaWithMoveOrdering.java:147-193 | `boardsEvaluated` and `cutOffsProduced` never change a returned value and never decrease |
| OrderedSearch.MaxLoopStatsDoNotSteer | mChess/src/com/chess/engine/player/ai/AlphaBetaWithMoveOrdering.java:157-168 | the counters do not change the value of `max`'s loop and never decrease in it |
| OrderedSearch.MinLoopStatsDoNotSteer | mChess/src/com/chess/engine/player/ai/AlphaBetaWithMoveOrdering.java:181-192 | the counters do not change the value of `min`'s loop and never decrease in it |
| OrderedSearch.CountersAreIncrements | mChess/src/com/chess/engine/player/ai/AlphaBetaWithMoveOrdering.java:147-193 | a leaf adds exactly one evaluated board and no cutoff; a node with no DONE move adds nothing; what a search adds does not depend on the counts it starts from |
| OrderedSearch.MaxLoopCountersAreIncrements | mChess/src/com/chess/engine/player/ai/AlphaBetaWithMoveOrdering.java:157-168 | what `max`'s loop adds to the counters does not depend on the counts it starts from |
| OrderedSearch.MinLoopCountersAreIncrements | mChess/src/com/chess/engine/player/ai/AlphaBetaWithMoveOrdering.java:181-192 | what `min`'s loop adds to the counters does not depend on the counts it starts from |
| OrderedSearch.NothingDoneCountsNothing | mChess/src/com/chess/engine/player/ai/AlphaBetaWithMoveOrdering.java:157-192 | a loop over moves none of which is DONE leaves both counters unchanged |
| OrderedSearch.CutoffCountsOne | mChess/src/com/chess/engine/player/ai/AlphaBetaWithMoveOrdering.java:162-165 | a cutoff ends the loop with the running bound and adds exactly one to `cutOffsProduced` on top of the search that caused it |
| OrderedSearch.RootLoopIsStrictSelect | mChess/src/com/chess/engine/player/ai/AlphaBetaWithMoveOrdering.java:108-140 | the fail-soft root loop chooses exactly as strict replacement over the plain minimax values of the sorted candidates |
| OrderedSearch.Candidates | mChess/src/com/chess/engine/player/ai/AlphaBetaWithMoveOrdering.java:87-108 | the searched candidates are legal moves, and there are some whenever there are legal moves |
| OrderedSearch.Search | mChess/src/com/chess/engine/player/ai/AlphaBetaWithMoveOrdering.java:108-140 | the root loop's pick is strict selection over minimax values in SMART order |
| OrderedSearch.Execute | mChess/src/com/chess/engine/player/ai/AlphaBetaWithMoveOrdering.java:73-145 | `execute` returns null iff no candidate strictly beats the initial bound; otherwise the first candidate of best minimax value |
| StockSearch.LastMoves | mChess/src/com/chess/engine/player/ai/StockAlphaBeta.java:224 | `lastNMoves` is the suffix of the move log of length at most `n` |
| StockSearch.Activity | mChess/src/com/chess/engine/player/ai/StockAlphaBeta.java:220-228 | the activity measure (a check bonus plus the attacking moves among the last four) lies between 0 and 6 |
| StockSearch.QuiescenceDepth | mChess/src/com/chess/engine/player/ai/StockAlphaBeta.java:217-235 | the budget grows by one iff the depth is 1, the budget is below 5000 and the activity exceeds 3, and then the search extends to depth 2; otherwise one ply less with the budget unchanged |
| StockSearch.BudgetRespected | mChess/src/com/chess/engine/player/ai/StockAlphaBeta.java:175-235 | `quiescenceCount` never decreases and never passes `MAX_QUIESCENCE` when it starts within it; `boardsEvaluated` never decreases |
| StockSearch.MaxLoopBudgetRespected | mChess/src/com/chess/engine/player/ai/StockAlphaBeta.java:184-193 | the same budget facts for the loop of `max` |
| StockSearch.MinLoopBudgetRespected | mChess/src/com/chess/engine/player/ai/StockAlphaBeta.java:205-214 | the same budget facts for the loop of `min` |
| StockSearch.StaysInWindow | mChess/src/com/chess/engine/player/ai/StockAlphaBeta.java:175-215 | fail-hard: below the leaves, `max` and `min` return a value inside [alpha, beta] |
| StockSearch.MaxLoopInWindow | mChess/src/com/chess/engine/player/ai/StockAlphaBeta.java:183-193 | the loop of `max` returns a value between the running alpha and beta |
| StockSearch.MinLoopInWindow | mChess/src/com/chess/engine/player/ai/StockAlphaBeta.java:204-214 | the loop of `min` returns a value between alpha and the running beta |
| StockSearch.SpentBudgetIsClampedMiniMax | mChess/src/com/chess/engine/player/ai/StockAlphaBeta.java:175-215 | once the extension budget is spent the search is plain fail-hard alpha-beta: the minimax value clamped to the window |
| StockSearch.SpentMaxLoop | mChess/src/com/chess/engine/player/ai/StockAlphaBeta.java:184-193 | with the budget spent, `max`'s loop is beta or the larger of the running alpha and the best value |
| StockSearch.SpentMinLoop | mChess/src/com/chess/engine/player/ai/StockAlphaBeta.java:205-214 | with the budget spent, `min`'s loop is alpha or the smaller of the running beta and the best value |
| StockSearch.RootLoop | mChess/src/com/chess/engine/player/ai/StockAlphaBeta.java:118-155 | the root loop's pick is the initial one or a DONE candidate; it changes only to a strictly better value; and the loop stops iff the pick changed and the final pick checkmates, so a strictly better mating move always stops it |
| StockSearch.StopIgnoresRest | mChess/src/com/chess/engine/player/ai/StockAlphaBeta.java:130-139 | after the `break` on a mating move, the candidates after it do not change the result |
| StockSearch.Candidates | mChess/src/com/chess/engine/player/ai/StockAlphaBeta.java:94-118 | the searched candidates are legal moves, and there are some whenever there are legal moves |
| StockSearch.Execute | mChess/src/com/chess/engine/player/ai/StockAlphaBeta.java:82-161 | `execute` returns the null move or a DONE legal move |
| ParallelMiniMax.Deal | mChess/src/com/chess/engine/player/ai/MiniMax.java:64-83 | the dealing loop produces six shards |
| ParallelMiniMax.Stride | mChess/src/com/chess/engine/player/ai/MiniMax.java:64-83 | the reference partition: shard `t` holds the moves at indices `t`, `t+6`, `t+12`, and so on, in order |
| ParallelMiniMax.StrideSnoc | mChess/src/com/chess/engine/player/ai/MiniMax.java:65-82 | dealing one more move extends exactly the shard its index falls in |
| ParallelMiniMax.ShardsAreStrides | mChess/src/com/chess/engine/player/ai/MiniMax.java:64-83 | the `numThread` dealing loop builds exactly the reference partition |
| ParallelMiniMax.IndexInShard | mChess/src/com/chess/engine/player/ai/MiniMax.java:64-83 | the move at index `j` is entry `j / 6` of shard `j mod 6` |
| ParallelMiniMax.ShardEntry | mChess/src/com/chess/engine/player/ai/MiniMax.java:64-83 | entry `i` of shard `t` is the move at index `t + 6i` |
| ParallelMiniMax.ShardOfIndex | mChess/src/com/chess/engine/player/ai/MiniMax.java:64-83 | every move is in some shard, and every shard entry is one of the moves |
| ParallelMiniMax.ShardSizes | mChess/src/com/chess/engine/player/ai/MiniMax.java:64-83 | the shards are balanced (sizes differ by at most one), and together they hold exactly as many moves as there are |
| ParallelMiniMax.Worker | mChess/src/com/chess/engine/player/ai/minimaxThread/MiniMaxThread.java:37-74 | a worker finds nothing iff none of its moves is DONE; otherwise it finds the last of its DONE moves of best value |
| ParallelMiniMax.NullChild | mChess/src/com/chess/engine/player/ai/minimaxThread/MiniMaxThread.java:41 | the null move a worker reports when it finds nothing is never a DONE transition |
| ParallelMiniMax.Finalists | mChess/src/com/chess/engine/player/ai/MiniMax.java:192-198 | `threadMoves` holds one entry per worker |
| ParallelMiniMax.FinalistIsLegal | mChess/src/com/chess/engine/player/ai/MiniMax.java:84-106 | a DONE finalist is one of the position's legal moves |
| ParallelMiniMax.FinalistCovers | mChess/src/com/chess/engine/player/ai/MiniMax.java:84-106 | each DONE legal move is matched or beaten by the finalist of its shard |
| ParallelMiniMax.NoFinalistIffNoneDone | mChess/src/com/chess/engine/player/ai/MiniMax.java:192-204 | every finalist is a non-DONE null move iff no legal move is DONE |
| ParallelMiniMax.BestFinalistIsGlobalBest | mChess/src/com/chess/engine/player/ai/MiniMax.java:192-204 | a DONE finalist that no other finalist beats is a globally best legal move |
| ParallelMiniMax.ShardedSearchIsGlobalBest | mChess/src/com/chess/engine/player/ai/MiniMax.java:202-213 | the final worker picks nothing iff no legal move is DONE; otherwise it picks a globally best legal move |
| ParallelMiniMax.Execute | mChess/src/com/chess/engine/player/ai/MiniMax.java:41-215 | `execute` returns a globally best DONE legal move, and nothing iff no legal move is DONE |
| ParallelMiniMax.AgreesWithSequential | mChess/src/com/chess/engine/player/ai/MiniMax.java:41-215 | the split search and single-threaded minimax both pick nothing or both pick a move, and the two moves have the same minimax value |
| ParallelMiniMax.CountedMin | mChess/src/com/chess/engine/player/ai/MiniMax.java:217-238 | the counted `min` adds one to `boardsEvaluated` at depth 0, and none at game over |
| ParallelMiniMax.CountedMax | mChess/src/com/chess/engine/player/ai/MiniMax.java:240-261 | the counted `max` adds one to `boardsEvaluated` at depth 0, and none at game over |
| ParallelMiniMax.CountedIsMiniMax | mChess/src/com/chess/engine/player/ai/MiniMax.java:217-261 | counting evaluated boards does not change the value of `min` or `max`, and the count never decreases |
| BoardFacts.VersusAntisymmetric | JChess/src/com/chess/engine/player/ai/StandardBoardEvaluator.java:25-27 | for any per-player score, exchanging the players negates white's score minus black's, in Java `int` arithmetic |
| JChessEvaluator.Evaluate | JChess/src/com/chess/engine/player/ai/StandardBoardEvaluator.java:25-37 | the depth term, added to both players, cancels: the evaluation does not depend on the depth |
| BoardFacts.MaterialAppend | JChess/src/com/chess/engine/player/ai/StandardBoardEvaluator.java:60-66 | one more piece adds exactly its value to `pieceValue` |
| JChessEvaluator.GainedPiece | JChess/src/com/chess/engine/player/ai/StandardBoardEvaluator.java:29-37 | gaining a piece of value v raises `scorePlayer` by exactly v, everything else being equal |
| JChessEvaluator.WhiteGainsPiece | JChess/src/com/chess/engine/player/ai/StandardBoardEvaluator.java:25-37 | a white piece of value v more raises the evaluation by v, modulo 2^32 |
| JChessEvaluator.Antisymmetric | JChess/src/com/chess/engine/player/ai/StandardBoardEvaluator.java:25-27 | exchanging the players negates the JChess evaluation (modulo 2^32) |
| MChessEvaluator.SquareGeometry | mChess/src/com/chess/engine/player/ai/StandardBoardEvaluator.java:521-566 | the square lists are nested blocks: the inner squares are rows and columns 1..6, the dead centre is 3..4, and the centre ring is 2..5 minus the dead centre |
| MChessEvaluator.CentreBonusesDisjoint | mChess/src/com/chess/engine/player/ai/StandardBoardEvaluator.java:521-550 | no square earns both pawn-centre bonuses, and both lists lie within the inner squares |
| MChessEvaluator.MateBonusIncreases | mChess/src/com/chess/engine/player/ai/StandardBoardEvaluator.java:117-128 | a mate found with more plies left is worth strictly more, and always more than zero |
| MChessEvaluator.CheckCountedTwice | mChess/src/com/chess/engine/player/ai/StandardBoardEvaluator.java:62-78 | `kingThreats` falls back to `check` and `score` adds `check` again, so an opponent in check but not mated is worth twice the check bonus |
| MChessEvaluator.Attacks | mChess/src/com/chess/engine/player/ai/StandardBoardEvaluator.java:83-95 | `attacks` lies between 0 and the number of legal moves, and is 0 iff no capture is by a piece worth at most its victim |
| MChessEvaluator.Castle | mChess/src/com/chess/engine/player/ai/StandardBoardEvaluator.java:130-136 | `castle` is 25 iff castled, 10 iff not castled but still able to castle on some side, and 0 otherwise |
| MChessEvaluator.PieceEvaluationsSplit | mChess/src/com/chess/engine/player/ai/StandardBoardEvaluator.java:97-107 | `pieceEvaluations` is the material plus the summed location bonuses, plus 49 exactly when there are two bishops |
| MChessEvaluator.PlacementSplits | mChess/src/com/chess/engine/player/ai/StandardBoardEvaluator.java:100-101 | the summed `getPieceValue() + locationBonus()` is the material plus the location bonuses |
| MChessEvaluator.PieceEvaluationsAppend | mChess/src/com/chess/engine/player/ai/StandardBoardEvaluator.java:97-107 | one more piece adds its value and location bonus; a second bishop also adds 49, a third takes the 49 away, and any other bishop count leaves it unchanged |
| MChessEvaluator.MajorPiecesInPlay | mChess/src/com/chess/engine/player/ai/StandardBoardEvaluator.java:554-566 | `majorPiecesInPlay` is between 0 and 3 per piece |
| MChessEvaluator.PawnsInCenter | mChess/src/com/chess/engine/player/ai/StandardBoardEvaluator.java:521-535 | `pawnsInCenter` is between 0 and 2 per piece |
| MChessEvaluator.PawnsInDeadCenter | mChess/src/com/chess/engine/player/ai/StandardBoardEvaluator.java:538-550 | `pawnsInDeadCenter` is between 0 and 4 per piece |
| MChessEvaluator.DuoBishop | mChess/src/com/chess/engine/player/ai/StandardBoardEvaluator.java:499-518 | `duoBishop` is positive iff there is more than one bishop; it is then 12 while fewer than 27 pieces remain and 3 otherwise |
| MChessEvaluator.MajorIsAttackedFrom | mChess/src/com/chess/engine/player/ai/StandardBoardEvaluator.java:257-281 | `majorIsAttacked` is never positive; it is 0 iff no enemy pawn move lands on a major piece, and otherwise -15 per pawn move onto the FIRST such piece |
| MChessEvaluator.TwoAttackPawnIn | mChess/src/com/chess/engine/player/ai/StandardBoardEvaluator.java:230-250 | `enemyHasTwoAttackPawn` is -20 iff some enemy pawn has more than one capture of a non-pawn, and 0 otherwise |
| MChessEvaluator.Antisymmetric | mChess/src/com/chess/engine/player/ai/StandardBoardEvaluator.java:54-57 | exchanging the players negates the mChess evaluation (modulo 2^32) |
| MChessEvaluator.MateDominates | mChess/src/com/chess/engine/player/ai/StandardBoardEvaluator.java:117-124 | mating a checked opponent raises the exact score by the mate bonus less the check bonus it replaces |
| PgnText.ContainsAcrossLineBreak | JChess/src/com/chess/pgnParser/PGNParser.java:35 | `contains` of a text without a line break cannot match across one |
| PgnText.Pieces | JChess/src/com/chess/PGNChess.java:195 | cutting a text at a separator gives at least one piece, none containing the separator |
| PgnText.JoinPieces | JChess/src/com/chess/PGNChess.java:195 | re-joining the pieces gives the text back |
| PgnText.PiecesOfJoin | JChess/src/com/chess/PGNChess.java:195 | cutting a join of separator-free pieces gives the pieces back |
| PgnText.DropTrailingEmpty | JChess/src/com/chess/PGNChess.java:195 | Java's `split` drops exactly the trailing empty pieces: the result is a prefix ending in a non-empty piece |
| PgnText.JavaSplit | JChess/src/com/chess/PGNChess.java:195 | `split` leaves a separator-free text whole, and otherwise yields separator-free pieces with no trailing empty one |
| PgnText.SplitRoundTrip | JChess/src/com/chess/PGNChess.java:195 | the text is the join of its split pieces followed by the dropped trailing separators |
| PgnText.SplitOfJoin | JChess/src/com/chess/PGNChess.java:195 | splitting a join of two or more non-empty separator-free pieces gives the pieces back |
| PgnText.DigitRun | JChess/src/com/chess/PGNChess.java:191 | the run of digits at the front of a text, maximal |
| PgnText.StripMoveNumbers | JChess/src/com/chess/PGNChess.java:191 | after removing move numbers no digit is followed by a full stop, and a leading non-digit is kept |
| PgnText.StripLeavesCleanText | JChess/src/com/chess/PGNChess.java:191 | a text without move numbers is left unchanged |
| PgnText.StripKeepsText | JChess/src/com/chess/PGNChess.java:191 | every character other than a digit or full stop survives, in order |
| PgnText.StripIdempotent | JChess/src/com/chess/PGNChess.java:191 | removing move numbers twice is removing them once |
| PgnText.NewlinesToSpaces | JChess/src/com/chess/PGNChess.java:192 | every line break becomes a space and nothing else changes |
| PgnText.CollapsePairs | JChess/src/com/chess/PGNChess.java:193 | the single pass never lengthens the text and introduces no new character |
| PgnText.CollapseLeavesSingleSpaces | JChess/src/com/chess/PGNChess.java:193 | a text without a double space is left unchanged |
| PgnText.CollapseKeepsText | JChess/src/com/chess/PGNChess.java:193 | every character other than a space survives, in order |
| PgnText.ThreeSpacesLeaveTwo | JChess/src/com/chess/PGNChess.java:193 | the single pass is not a full collapse: three spaces become two |
| PgnParser.PgnStrings | JChess/src/com/chess/pgnParser/PGNParser.java:18-53 | one game per game-closing line, each free of brackets and dates and made of whole lines |
| PgnParser.ReadInvariant | JChess/src/com/chess/pgnParser/PGNParser.java:26-47 | the loop keeps the emitted and the pending text header-free and line-terminated, with one game per closing line |
| PgnParser.CollectLine | JChess/src/com/chess/pgnParser/PGNParser.java:35-38 | appending a kept line keeps the pending text header-free |
| PgnParser.GamesAreKeptText | JChess/src/com/chess/pgnParser/PGNParser.java:26-47 | nothing is lost or reordered: the emitted games followed by the pending text are exactly the kept lines |
| PgnParser.TrailingLinesIgnored | JChess/src/com/chess/pgnParser/PGNParser.java:41-44 | lines after the last game-closing line never reach the output |
| PgnParser.UncollectedResultLine | JChess/src/com/chess/pgnParser/PGNParser.java:35-44 | a closing line that is not collected still emits whatever is pending, even nothing |
| PgnChess.Tokens | JChess/src/com/chess/PGNChess.java:191-195 | the cleaned and split tokens contain no space |
| PgnChess.WinnerOf | JChess/src/com/chess/PGNChess.java:197-205 | reading the result fails iff splitting it at `-` gives no piece, or a single piece without a `0` |
| PgnChess.WhiteWinResult | JChess/src/com/chess/PGNChess.java:197-205 | "1-0" records white |
| PgnChess.BlackWinResult | JChess/src/com/chess/PGNChess.java:197-205 | "0-1" records black |
| PgnChess.DrawResult | JChess/src/com/chess/PGNChess.java:197-205 | "1/2-1/2" records neither side |
| PgnChess.ReadGame | JChess/src/com/chess/PGNChess.java:195-210 | the game fails iff there is no token or the last one's result throws; otherwise the winner comes from the last token and the moves are the first `length - 2` tokens |
| PgnChess.EmptyGameThrows | JChess/src/com/chess/PGNChess.java:197-205 | an empty game string throws |
| PgnChess.TokensOfOneLine | JChess/src/com/chess/PGNChess.java:191-210 | move text on one line gives back exactly its words, and the replayed moves stop two tokens before the end, dropping the last move before the result |
| PgnChess.BoardState | JChess/src/com/chess/PGNChess.java:225-239 | the network input has one entry per tile |
| PgnChess.BoardStateSides | JChess/src/com/chess/PGNChess.java:225-239 | the same tiles seen with the other side to move give the negated input, and an empty tile is 0 |
| PgnChess.PieceCode | JChess/src/com/chess/PGNChess.java:250-269 | the piece label lies in 1..6 |
| PgnChess.PieceCodeInjective | JChess/src/com/chess/PGNChess.java:250-269 | distinct kinds get distinct piece labels |
| PgnChess.FileToNum | JChess/src/com/chess/PGNChess.java:508-533 | the file label lies in 1..8 |
| PgnChess.FileAndRankIdentifySquare | JChess/src/com/chess/PGNChess.java:508-533 | the file label is the column plus one, the rank label is 8 minus the row, and together they give the square back |
| PgnChess.LastMatch | JChess/src/com/chess/PGNChess.java:242-272 | the scan finds nothing iff no DONE legal move has the token as its notation; otherwise it finds the LAST such move |
| PgnChess.Walk | JChess/src/com/chess/PGNChess.java:218-290 | a completed walk plays one move per token |
| PgnChess.ReplayFollowsWalk | JChess/src/com/chess/PGNChess.java:218-290 | the replay is discarded iff some token cannot be played; otherwise it records exactly the walk's pairs for the plies the winner plays |
| PgnChess.AccumulateStep | JChess/src/com/chess/PGNChess.java:280-288 | recording one ply and then the rest of the walk is recording the whole walk |
| PgnChess.SamplesStep | JChess/src/com/chess/PGNChess.java:218-290 | the pairs of a walk are those of its first ply plus those of the rest |
| PgnChess.PlayOutWritesWalk | JChess/src/com/chess/PGNChess.java:187-308 | a playout throws iff the game cannot be read; otherwise it is discarded iff some move cannot be played, and else it writes exactly the walk's pairs |
| PgnChess.DrawWritesNothing | JChess/src/com/chess/PGNChess.java:280-286 | a drawn game writes no pair |
| PgnChess.SameFate | JChess/src/com/chess/PGNChess.java:310-407 | the label kind does not change whether a game is written |
| PgnChess.LabelsShareTheWalk | JChess/src/com/chess/PGNChess.java:409-506 | the three playouts of a game throw, discard or write together, and record the same plies with the same board states |
| PgnChess.ExceptionEndsFile | JChess/src/com/chess/PGNChess.java:39-50 | a game that throws ends the file: nothing after it is written |
| PgnChess.OutputsComeInThrees | JChess/src/com/chess/PGNChess.java:42-46 | the output always holds whole triples, one entry per label file |

## Left out

- Board representation and move generation (`Board`, `Player`, `Move`, `MoveTransition`, `BoardUtils`) are not part of this model. A position is a finite tree of legal moves with their transition status, and `Move` keeps only the facts the core reads.
- Threads, `Thread.sleep` polling and `startMiniMax` in mChess `MiniMax` are modelled as sequential calls. A worker's result is read once it is final, so the polling loops add nothing.
- Printing, timing (`System.currentTimeMillis`, `nanoTime`), the `Observable` notifications and file writing are left out. The PGN writer is modelled as the sequence of outputs it would append.
- The `HashMap` of training pairs is a Dafny `map`. Its iteration order when written is not modelled.
- `playOutPGN` (lines 54-177 of `PGNChess.java`) is left out. Its labels come from the full evaluator and board coordinates. The three label variants `playOutPGNPiece/File/Rank` are modelled.
- `BoardUtils.getPositionAtCoordinate` is not part of this model. The standard layout is assumed, with square 0 = "a8" and square 63 = "h1".
- The `freqTable` updates in mChess `MiniMax.min/max` are left out. Its rows are never created, because the loop that filled them is commented out, so as written those methods would throw a `NullPointerException` at their first depth-0 leaf. They are never called on the search path, because the workers use their own `min`/`max`. `ParallelMiniMax.CountedMin` and `CountedMax` model the count they were meant to keep.
- The player analyzers are inputs: pawn structure, rook structure and king tropism are given numbers in `PlayerFacts`.
- `mobilityRatio` in mChess is a float computation. It is an input number; its division by the opponent's move count is not modelled.
- The evaluator helpers that `score` never calls are left out, because they do not affect any result. These are `kingStillFirstMove`, `firstMovePawn` (which uses `Random`), `majorTakesUpTrade`, `freeMajors`, `queenNoGetKilled`, `tradeWhenAhead`, `tryMoveBishop/Knight`, `majorNoGetKilled`, `kingProximity`, `castled` and `pieceValue`. So are the `StockAlphaBeta` probes that are commented out at the call site (`checkIfMoveIsGood`, `checkQueenEscapes`, `checkIfFreeKill`, `pawnIsAttackingMajor`, `majorMovedToDeath`).
- The probes read look-ahead positions the model cannot generate. `Vetoes` takes for each candidate the replies, answers and flags the probes' nested loops inspect (`Lookahead`), and proves what the probes decide from them.
- `BoardUtils.isEndGame` (used by the mChess alpha-beta searches) is modelled as the same checkmate-or-stalemate test as `isEndGameScenario`.
- A null move reaching `makeMove` is treated as an illegal (not DONE) transition.
- `Scanner.hasNext` (rather than `hasNextLine`) in `getPGNString` only skips trailing blank lines, which are never collected. The input is modelled as a sequence of lines.
- `StockSearch.Execute`: only states that the result is the null move or a DONE legal move. It is weaker than the other strategies' optimality statement because the quiescence extension makes the root values differ from plain minimax. `StockSearch.SpentBudgetIsClampedMiniMax` gives the exact statement once the budget is spent.
- `PgnText.CollapsePairs`: its contract states only length and characters. The exact behaviour is given by `CollapseLeavesSingleSpaces`, `CollapseKeepsText` and `ThreeSpacesLeaveTwo`.
- `MChessEvaluator.MajorPiecesInPlay`, `PawnsInCenter` and `PawnsInDeadCenter` state bounds only. Which squares count is given by `SquareGeometry` and `CentreBonusesDisjoint`.
