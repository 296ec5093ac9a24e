/** StockAlphaBeta: fail-hard alpha-beta whose nodes visit their legal
    moves in STANDARD order, with a quiescence extension (a loud move found
    at depth 1 is searched two more plies instead of zero) limited by a
    budget of MAX_QUIESCENCE extensions per root candidate. The root filters
    its candidates with the knight fork and pawn probes, sorts them
    EXPENSIVE, replaces only on strictly better values, and stops as soon as
    the chosen move checkmates. */
module StockSearch {
  import opened Common
  import opened GameTree
  import opened RootSelection
  import opened MoveOrdering
  import opened Vetoes
  import MM = MiniMaxSearch

  const MAX_QUIESCENCE: int := 5000

  /** The counters `boardsEvaluated` and `quiescenceCount`. */
  datatype Stats = Stats(boardsEvaluated: int, quiescenceCount: int)

  datatype Outcome = Outcome(value: Int32, stats: Stats)

  /** `BoardUtils.lastNMoves(board, n)`: the last `n` moves of the log. */
  function LastMoves(history: seq<Move>, n: nat): (r: seq<Move>)
    ensures |r| <= n && |r| <= |history|
    ensures r == history[|history| - |r|..]
  {
    if |history| <= n then history else history[|history| - n..]
  }

  function IsAttack(m: Move): bool { m.isAttack }

  /** The activity measure of the position a move leads to: 2 if the side to
      move there is in check, plus 1 for every capture among the last four
      moves of the game. */
  function Activity(next: Pos): (a: int)
    ensures 0 <= a <= 6
  {
    (if next.inCheck then 2 else 0) + CountIf(LastMoves(next.history, 4), IsAttack)
  }

  /** `calculateQuiescenceDepth`: the depth to search the move `c` with,
      and the budget counter afterwards. */
  function QuiescenceDepth(c: Child, depth: int, count: int): (r: (int, int))
    ensures r.1 == count + 1 <==> depth == 1 && count < MAX_QUIESCENCE && Activity(c.next) > 3
    ensures r.1 == count + 1 ==> r.0 == 2
    ensures r.1 != count + 1 ==> r.1 == count && r.0 == depth - 1
  {
    if depth == 1 && count < MAX_QUIESCENCE then
      if Activity(c.next) > 3 then (2, count + 1) else (depth - 1, count)
    else (depth - 1, count)
  }

  function Max(p: Pos, depth: int, highest: Int32, lowest: Int32, st: Stats, eval: Evaluator): Outcome
    decreases p, 1
  {
    if IsLeaf(p, depth) then Outcome(eval(p, depth), st.(boardsEvaluated := st.boardsEvaluated + 1))
    else MaxLoop(p, StandardOrder(p.children), depth, highest, lowest, st, eval)
  }

  function MaxLoop(p: Pos, cs: seq<Child>, depth: int, highest: Int32, lowest: Int32, st: Stats, eval: Evaluator): Outcome
    requires ChildrenOf(p, cs)
    decreases p, 0, |cs|
  {
    if |cs| == 0 then Outcome(highest, st)
    else
      var c := cs[0];
      if c.status == Done then
        var (d, q) := QuiescenceDepth(c, depth, st.quiescenceCount);
        var o := Min(c.next, d, highest, lowest, st.(quiescenceCount := q), eval);
        var h := if highest >= o.value then highest else o.value;
        if h >= lowest then Outcome(lowest, o.stats)
        else MaxLoop(p, cs[1..], depth, h, lowest, o.stats, eval)
      else MaxLoop(p, cs[1..], depth, highest, lowest, st, eval)
  }

  function Min(p: Pos, depth: int, highest: Int32, lowest: Int32, st: Stats, eval: Evaluator): Outcome
    decreases p, 1
  {
    if IsLeaf(p, depth) then Outcome(eval(p, depth), st.(boardsEvaluated := st.boardsEvaluated + 1))
    else MinLoop(p, StandardOrder(p.children), depth, highest, lowest, st, eval)
  }

  function MinLoop(p: Pos, cs: seq<Child>, depth: int, highest: Int32, lowest: Int32, st: Stats, eval: Evaluator): Outcome
    requires ChildrenOf(p, cs)
    decreases p, 0, |cs|
  {
    if |cs| == 0 then Outcome(lowest, st)
    else
      var c := cs[0];
      if c.status == Done then
        var (d, q) := QuiescenceDepth(c, depth, st.quiescenceCount);
        var o := Max(c.next, d, highest, lowest, st.(quiescenceCount := q), eval);
        var l := if lowest <= o.value then lowest else o.value;
        if l <= highest then Outcome(highest, o.stats)
        else MinLoop(p, cs[1..], depth, highest, l, o.stats, eval)
      else MinLoop(p, cs[1..], depth, highest, lowest, st, eval)
  }

  /** The extension budget: the counter never decreases, never passes
      MAX_QUIESCENCE once within it, and the board counter never decreases. */
  lemma {:induction false} BudgetRespected(p: Pos, depth: int, highest: Int32, lowest: Int32, st: Stats, eval: Evaluator)
    ensures var o := Max(p, depth, highest, lowest, st, eval);
      && st.quiescenceCount <= o.stats.quiescenceCount
      && (st.quiescenceCount <= MAX_QUIESCENCE ==> o.stats.quiescenceCount <= MAX_QUIESCENCE)
      && st.boardsEvaluated <= o.stats.boardsEvaluated
    ensures var o := Min(p, depth, highest, lowest, st, eval);
      && st.quiescenceCount <= o.stats.quiescenceCount
      && (st.quiescenceCount <= MAX_QUIESCENCE ==> o.stats.quiescenceCount <= MAX_QUIESCENCE)
      && st.boardsEvaluated <= o.stats.boardsEvaluated
    decreases p, 1
  {
    if !IsLeaf(p, depth) {
      MaxLoopBudgetRespected(p, StandardOrder(p.children), depth, highest, lowest, st, eval);
      MinLoopBudgetRespected(p, StandardOrder(p.children), depth, highest, lowest, st, eval);
    }
  }

  lemma {:induction false} MaxLoopBudgetRespected(p: Pos, cs: seq<Child>, depth: int, highest: Int32, lowest: Int32, st: Stats, eval: Evaluator)
    requires ChildrenOf(p, cs)
    ensures var o := MaxLoop(p, cs, depth, highest, lowest, st, eval);
      && st.quiescenceCount <= o.stats.quiescenceCount
      && (st.quiescenceCount <= MAX_QUIESCENCE ==> o.stats.quiescenceCount <= MAX_QUIESCENCE)
      && st.boardsEvaluated <= o.stats.boardsEvaluated
    decreases p, 0, |cs|
  {
    if |cs| > 0 {
      var c := cs[0];
      if c.status == Done {
        var (d, q) := QuiescenceDepth(c, depth, st.quiescenceCount);
        var st1 := st.(quiescenceCount := q);
        BudgetRespected(c.next, d, highest, lowest, st1, eval);
        var a := Min(c.next, d, highest, lowest, st1, eval);
        var h := if highest >= a.value then highest else a.value;
        if h < lowest {
          MaxLoopBudgetRespected(p, cs[1..], depth, h, lowest, a.stats, eval);
        }
      } else {
        MaxLoopBudgetRespected(p, cs[1..], depth, highest, lowest, st, eval);
      }
    }
  }

  lemma {:induction false} MinLoopBudgetRespected(p: Pos, cs: seq<Child>, depth: int, highest: Int32, lowest: Int32, st: Stats, eval: Evaluator)
    requires ChildrenOf(p, cs)
    ensures var o := MinLoop(p, cs, depth, highest, lowest, st, eval);
      && st.quiescenceCount <= o.stats.quiescenceCount
      && (st.quiescenceCount <= MAX_QUIESCENCE ==> o.stats.quiescenceCount <= MAX_QUIESCENCE)
      && st.boardsEvaluated <= o.stats.boardsEvaluated
    decreases p, 0, |cs|
  {
    if |cs| > 0 {
      var c := cs[0];
      if c.status == Done {
        var (d, q) := QuiescenceDepth(c, depth, st.quiescenceCount);
        var st1 := st.(quiescenceCount := q);
        BudgetRespected(c.next, d, highest, lowest, st1, eval);
        var a := Max(c.next, d, highest, lowest, st1, eval);
        var l := if lowest <= a.value then lowest else a.value;
        if l > highest {
          MinLoopBudgetRespected(p, cs[1..], depth, highest, l, a.stats, eval);
        }
      } else {
        MinLoopBudgetRespected(p, cs[1..], depth, highest, lowest, st, eval);
      }
    }
  }

  /** Fail-hard: below the leaves, a search with alpha <= beta returns a
      value inside the window. */
  lemma {:induction false} StaysInWindow(p: Pos, depth: int, alpha: Int32, beta: Int32, st: Stats, eval: Evaluator)
    requires alpha <= beta && !IsLeaf(p, depth)
    ensures alpha <= Max(p, depth, alpha, beta, st, eval).value <= beta
    ensures alpha <= Min(p, depth, alpha, beta, st, eval).value <= beta
  {
    MaxLoopInWindow(p, StandardOrder(p.children), depth, alpha, beta, st, eval);
    MinLoopInWindow(p, StandardOrder(p.children), depth, alpha, beta, st, eval);
  }

  lemma {:induction false} MaxLoopInWindow(p: Pos, cs: seq<Child>, depth: int, cur: Int32, beta: Int32, st: Stats, eval: Evaluator)
    requires ChildrenOf(p, cs) && cur <= beta
    ensures cur <= MaxLoop(p, cs, depth, cur, beta, st, eval).value <= beta
    decreases |cs|
  {
    if |cs| > 0 {
      var c := cs[0];
      if c.status == Done {
        var (d, q) := QuiescenceDepth(c, depth, st.quiescenceCount);
        var o := Min(c.next, d, cur, beta, st.(quiescenceCount := q), eval);
        var h := if cur >= o.value then cur else o.value;
        if h < beta {
          MaxLoopInWindow(p, cs[1..], depth, h, beta, o.stats, eval);
        }
      } else {
        MaxLoopInWindow(p, cs[1..], depth, cur, beta, st, eval);
      }
    }
  }

  lemma {:induction false} MinLoopInWindow(p: Pos, cs: seq<Child>, depth: int, alpha: Int32, cur: Int32, st: Stats, eval: Evaluator)
    requires ChildrenOf(p, cs) && alpha <= cur
    ensures alpha <= MinLoop(p, cs, depth, alpha, cur, st, eval).value <= cur
    decreases |cs|
  {
    if |cs| > 0 {
      var c := cs[0];
      if c.status == Done {
        var (d, q) := QuiescenceDepth(c, depth, st.quiescenceCount);
        var o := Max(c.next, d, alpha, cur, st.(quiescenceCount := q), eval);
        var l := if cur <= o.value then cur else o.value;
        if l > alpha {
          MinLoopInWindow(p, cs[1..], depth, alpha, l, o.stats, eval);
        }
      } else {
        MinLoopInWindow(p, cs[1..], depth, alpha, cur, st, eval);
      }
    }
  }

  /** Once the extension budget is spent, the search is plain fail-hard
      alpha-beta: the minimax value clamped to the window, whatever order
      STANDARD visits the moves in. */
  lemma {:induction false} SpentBudgetIsClampedMiniMax(p: Pos, depth: int, alpha: Int32, beta: Int32, st: Stats, eval: Evaluator)
    requires alpha <= beta && st.quiescenceCount >= MAX_QUIESCENCE
    ensures var v := MM.Max(p, depth, eval);
      Max(p, depth, alpha, beta, st, eval).value == if IsLeaf(p, depth) then v else if v >= beta then beta else Max2(alpha, v)
    ensures var v := MM.Min(p, depth, eval);
      Min(p, depth, alpha, beta, st, eval).value == if IsLeaf(p, depth) then v else if v <= alpha then alpha else Min2(beta, v)
    decreases p, 1
  {
    if !IsLeaf(p, depth) {
      var cs := StandardOrder(p.children);
      SpentMaxLoop(p, cs, depth, alpha, beta, st, eval);
      SpentMinLoop(p, cs, depth, alpha, beta, st, eval);
      MM.ValueOfAnyOrder(p, cs, depth, eval);
    }
  }

  lemma {:induction false} SpentMaxLoop(p: Pos, cs: seq<Child>, depth: int, cur: Int32, beta: Int32, st: Stats, eval: Evaluator)
    requires ChildrenOf(p, cs) && cur <= beta && st.quiescenceCount >= MAX_QUIESCENCE
    ensures var m := Max2(cur, MM.BestForMax(cs, depth, eval));
      MaxLoop(p, cs, depth, cur, beta, st, eval).value == if m >= beta then beta else m
    decreases p, 0, |cs|
  {
    if |cs| > 0 {
      var c := cs[0];
      if c.status == Done {
        SpentBudgetIsClampedMiniMax(c.next, depth - 1, cur, beta, st, eval);
        BudgetRespected(c.next, depth - 1, cur, beta, st, eval);
        var o := Min(c.next, depth - 1, cur, beta, st, eval);
        var h := if cur >= o.value then cur else o.value;
        if h < beta {
          SpentMaxLoop(p, cs[1..], depth, h, beta, o.stats, eval);
        }
      } else {
        SpentMaxLoop(p, cs[1..], depth, cur, beta, st, eval);
      }
    }
  }

  lemma {:induction false} SpentMinLoop(p: Pos, cs: seq<Child>, depth: int, alpha: Int32, cur: Int32, st: Stats, eval: Evaluator)
    requires ChildrenOf(p, cs) && alpha <= cur && st.quiescenceCount >= MAX_QUIESCENCE
    ensures var m := Min2(cur, MM.BestForMin(cs, depth, eval));
      MinLoop(p, cs, depth, alpha, cur, st, eval).value == if m <= alpha then alpha else m
    decreases p, 0, |cs|
  {
    if |cs| > 0 {
      var c := cs[0];
      if c.status == Done {
        SpentBudgetIsClampedMiniMax(c.next, depth - 1, alpha, cur, st, eval);
        BudgetRespected(c.next, depth - 1, alpha, cur, st, eval);
        var o := Max(c.next, depth - 1, alpha, cur, st, eval);
        var l := if cur <= o.value then cur else o.value;
        if l > alpha {
          SpentMinLoop(p, cs[1..], depth, alpha, l, o.stats, eval);
        }
      } else {
        SpentMinLoop(p, cs[1..], depth, alpha, cur, st, eval);
      }
    }
  }

  /** The root loop state: the pick, the counters, and whether the loop
      stopped early on a mating move. */
  datatype RootState = RootState(pick: Pick, stats: Stats, stopped: bool)

  /** The root loop from the remaining candidates `cs` on. The budget is
      reset for every candidate; a DONE candidate is searched with the
      window (highestSeenValue, lowestSeenValue); a strictly better value
      replaces the best move, and if that move checkmates the loop stops. */
  function RootLoop(side: Side, cs: seq<Child>, depth: int, acc: Pick, st: Stats, eval: Evaluator): (r: RootState)
    ensures r.pick == acc || exists k :: 0 <= k < |cs| && cs[k].status == Done && r.pick.best == Some(cs[k])
    ensures r.stopped ==> r.pick.best.Some? && r.pick.best.value.next.inCheckMate
    ensures r.pick == acc || Beats(side, Extreme(side, r.pick), Extreme(side, acc))
    ensures r.stopped <==> r.pick != acc && r.pick.best.Some? && r.pick.best.value.next.inCheckMate
    decreases |cs|
  {
    if |cs| == 0 then RootState(acc, st, false)
    else
      var c := cs[0];
      var st0 := st.(quiescenceCount := 0);
      if c.status != Done then
        var r := RootLoop(side, cs[1..], depth, acc, st0, eval);
        assert r.pick == acc || exists k :: 0 < k < |cs| && cs[k].status == Done && r.pick.best == Some(cs[k]) by {
          if r.pick != acc {
            var k :| 0 <= k < |cs[1..]| && cs[1..][k].status == Done && r.pick.best == Some(cs[1..][k]);
            assert cs[k + 1] == cs[1..][k];
          }
        }
        r
      else
        var o := if side == White then Min(c.next, depth - 1, acc.highest, acc.lowest, st0, eval)
                 else Max(c.next, depth - 1, acc.highest, acc.lowest, st0, eval);
        var better := Beats(side, o.value, Extreme(side, acc));
        if better && c.next.inCheckMate then
          RootState(Update(side, false, acc, Scored(c, Some(o.value))), o.stats, true)
        else
          var acc' := Update(side, false, acc, Scored(c, Some(o.value)));
          var r := RootLoop(side, cs[1..], depth, acc', o.stats, eval);
          assert r.pick == acc || exists k :: 0 <= k < |cs| && cs[k].status == Done && r.pick.best == Some(cs[k]) by {
            if r.pick != acc' {
              var k :| 0 <= k < |cs[1..]| && cs[1..][k].status == Done && r.pick.best == Some(cs[1..][k]);
              assert cs[k + 1] == cs[1..][k];
            }
          }
          r
  }

  /** After the loop stops on a mating move, later candidates are never
      looked at: appending more candidates changes nothing. */
  lemma {:induction false} StopIgnoresRest(side: Side, cs: seq<Child>, rest: seq<Child>, depth: int, acc: Pick, st: Stats, eval: Evaluator)
    requires RootLoop(side, cs, depth, acc, st, eval).stopped
    ensures RootLoop(side, cs + rest, depth, acc, st, eval) == RootLoop(side, cs, depth, acc, st, eval)
    decreases |cs|
  {
    assert |cs| > 0;
    assert (cs + rest)[0] == cs[0] && (cs + rest)[1..] == cs[1..] + rest;
    var c := cs[0];
    var st0 := st.(quiescenceCount := 0);
    if c.status != Done {
      StopIgnoresRest(side, cs[1..], rest, depth, acc, st0, eval);
    } else {
      var o := if side == White then Min(c.next, depth - 1, acc.highest, acc.lowest, st0, eval)
               else Max(c.next, depth - 1, acc.highest, acc.lowest, st0, eval);
      if !(Beats(side, o.value, Extreme(side, acc)) && c.next.inCheckMate) {
        StopIgnoresRest(side, cs[1..], rest, depth, Update(side, false, acc, Scored(c, Some(o.value))), o.stats, eval);
      }
    }
  }

  /** The candidates `execute` searches, in order: the legal moves that pass
      the knight fork and pawn probes (or all of them), EXPENSIVE-sorted. */
  function Candidates(p: Pos, look: Child -> Lookahead): (cs: seq<Child>)
    ensures forall c :: c in cs ==> c in p.children
    ensures |cs| == 0 <==> |p.children| == 0
  {
    ExpensiveOrder(RootCandidates(p.children, look, false))
  }

  /** `execute`: the null move, or a DONE legal move; a move that stopped
      the loop checkmates. */
  function Execute(p: Pos, depth: int, look: Child -> Lookahead, st: Stats, eval: Evaluator): (r: (Option<Move>, Stats))
    ensures r.0.Some? ==> exists c :: c in p.children && c.status == Done && c.move == r.0.value
  {
    var cs := Candidates(p, look);
    var s := RootLoop(p.toMove, cs, depth, Initial, st, eval);
    (if s.pick.best.Some? then Some(s.pick.best.value.move) else None, s.stats)
  }
}
