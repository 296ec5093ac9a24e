/** AlphaBetaWithMoveOrdering: alpha-beta whose nodes visit their legal
    moves in SMART_SORT order, whose cutoffs `break` out of the loop and
    return the running bound itself (which may lie beyond the window), and
    which counts evaluated boards and cutoffs. The quiescence hook always
    returns `depth - 1` in this strategy. */
module OrderedSearch {
  import opened Common
  import opened GameTree
  import opened RootSelection
  import opened MoveOrdering
  import opened Vetoes
  import MM = MiniMaxSearch

  /** The diagnostic counters `boardsEvaluated` and `cutOffsProduced`. */
  datatype Stats = Stats(boardsEvaluated: int, cutOffs: int)

  /** A search result and the counters after it. */
  datatype Outcome = Outcome(value: Int32, stats: Stats)

  /** `calculateQuiescenceDepth` of this strategy. */
  function QuiescenceDepth(depth: int): (d: int)
    ensures d < depth
  {
    depth - 1
  }

  function Max(p: Pos, depth: int, highest: Int32, lowest: Int32, st: Stats, eval: Evaluator): Outcome
    decreases p, 1
  {
    if IsLeaf(p, depth) then Outcome(eval(p, depth), st.(boardsEvaluated := st.boardsEvaluated + 1))
    else MaxLoop(p, SmartOrder(p.children), depth, highest, lowest, st, eval)
  }

  function MaxLoop(p: Pos, cs: seq<Child>, depth: int, highest: Int32, lowest: Int32, st: Stats, eval: Evaluator): Outcome
    requires ChildrenOf(p, cs)
    decreases p, 0, |cs|
  {
    if |cs| == 0 then Outcome(highest, st)
    else
      var c := cs[0];
      if c.status == Done then
        var o := Min(c.next, QuiescenceDepth(depth), highest, lowest, st, eval);
        var h := if highest >= o.value then highest else o.value;
        if lowest <= h then Outcome(h, o.stats.(cutOffs := o.stats.cutOffs + 1))
        else MaxLoop(p, cs[1..], depth, h, lowest, o.stats, eval)
      else MaxLoop(p, cs[1..], depth, highest, lowest, st, eval)
  }

  function Min(p: Pos, depth: int, highest: Int32, lowest: Int32, st: Stats, eval: Evaluator): Outcome
    decreases p, 1
  {
    if IsLeaf(p, depth) then Outcome(eval(p, depth), st.(boardsEvaluated := st.boardsEvaluated + 1))
    else MinLoop(p, SmartOrder(p.children), depth, highest, lowest, st, eval)
  }

  function MinLoop(p: Pos, cs: seq<Child>, depth: int, highest: Int32, lowest: Int32, st: Stats, eval: Evaluator): Outcome
    requires ChildrenOf(p, cs)
    decreases p, 0, |cs|
  {
    if |cs| == 0 then Outcome(lowest, st)
    else
      var c := cs[0];
      if c.status == Done then
        var o := Max(c.next, QuiescenceDepth(depth), highest, lowest, st, eval);
        var l := if lowest <= o.value then lowest else o.value;
        if l <= highest then Outcome(l, o.stats.(cutOffs := o.stats.cutOffs + 1))
        else MinLoop(p, cs[1..], depth, highest, l, o.stats, eval)
      else MinLoop(p, cs[1..], depth, highest, lowest, st, eval)
  }

  /** `max` against plain minimax: below beta it returns exactly the larger
      of alpha and the minimax value; at or above beta it fails soft,
      returning a bound between beta and the minimax value. */
  lemma {:induction false} MaxIsSoftClamp(p: Pos, depth: int, alpha: Int32, beta: Int32, st: Stats, eval: Evaluator)
    requires alpha <= beta
    ensures var v := MM.Max(p, depth, eval); var r := Max(p, depth, alpha, beta, st, eval).value;
      && (IsLeaf(p, depth) ==> r == v)
      && (!IsLeaf(p, depth) && v < beta ==> r == Max2(alpha, v))
      && (!IsLeaf(p, depth) && v >= beta ==> beta <= r <= v)
    decreases p, 1
  {
    if !IsLeaf(p, depth) {
      var cs := SmartOrder(p.children);
      MaxLoopIsSoftClamp(p, cs, depth, alpha, beta, st, eval);
      MM.ValueOfAnyOrder(p, cs, depth, eval);
    }
  }

  /** `min` against plain minimax, the mirror image of `MaxIsSoftClamp`. */
  lemma {:induction false} MinIsSoftClamp(p: Pos, depth: int, alpha: Int32, beta: Int32, st: Stats, eval: Evaluator)
    requires alpha <= beta
    ensures var v := MM.Min(p, depth, eval); var r := Min(p, depth, alpha, beta, st, eval).value;
      && (IsLeaf(p, depth) ==> r == v)
      && (!IsLeaf(p, depth) && v > alpha ==> r == Min2(beta, v))
      && (!IsLeaf(p, depth) && v <= alpha ==> v <= r <= alpha)
    decreases p, 1
  {
    if !IsLeaf(p, depth) {
      var cs := SmartOrder(p.children);
      MinLoopIsSoftClamp(p, cs, depth, alpha, beta, st, eval);
      MM.ValueOfAnyOrder(p, cs, depth, eval);
    }
  }

  lemma {:induction false} MaxLoopIsSoftClamp(p: Pos, cs: seq<Child>, depth: int, cur: Int32, beta: Int32, st: Stats, eval: Evaluator)
    requires ChildrenOf(p, cs) && cur <= beta
    ensures var m := Max2(cur, MM.BestForMax(cs, depth, eval)); var r := MaxLoop(p, cs, depth, cur, beta, st, eval).value;
      && (m < beta ==> r == m)
      && (m >= beta ==> beta <= r <= m)
    decreases p, 0, |cs|
  {
    if |cs| > 0 {
      var c := cs[0];
      if c.status == Done {
        MinIsSoftClamp(c.next, depth - 1, cur, beta, st, eval);
        var o := Min(c.next, depth - 1, cur, beta, st, eval);
        var h := if cur >= o.value then cur else o.value;
        if h < beta {
          MaxLoopIsSoftClamp(p, cs[1..], depth, h, beta, o.stats, eval);
        }
      } else {
        MaxLoopIsSoftClamp(p, cs[1..], depth, cur, beta, st, eval);
      }
    }
  }

  lemma {:induction false} MinLoopIsSoftClamp(p: Pos, cs: seq<Child>, depth: int, alpha: Int32, cur: Int32, st: Stats, eval: Evaluator)
    requires ChildrenOf(p, cs) && alpha <= cur
    ensures var m := Min2(cur, MM.BestForMin(cs, depth, eval)); var r := MinLoop(p, cs, depth, alpha, cur, st, eval).value;
      && (m > alpha ==> r == m)
      && (m <= alpha ==> m <= r <= alpha)
    decreases p, 0, |cs|
  {
    if |cs| > 0 {
      var c := cs[0];
      if c.status == Done {
        MaxIsSoftClamp(c.next, depth - 1, alpha, cur, st, eval);
        var o := Max(c.next, depth - 1, alpha, cur, st, eval);
        var l := if cur <= o.value then cur else o.value;
        if l > alpha {
          MinLoopIsSoftClamp(p, cs[1..], depth, alpha, l, o.stats, eval);
        }
      } else {
        MinLoopIsSoftClamp(p, cs[1..], depth, alpha, cur, st, eval);
      }
    }
  }

  /** The counters are diagnostics only: the value a search returns does
      not depend on them, and they never decrease. */
  lemma {:induction false} StatsDoNotSteer(p: Pos, depth: int, highest: Int32, lowest: Int32, st: Stats, st': Stats, eval: Evaluator)
    ensures Max(p, depth, highest, lowest, st, eval).value == Max(p, depth, highest, lowest, st', eval).value
    ensures Min(p, depth, highest, lowest, st, eval).value == Min(p, depth, highest, lowest, st', eval).value
    ensures Max(p, depth, highest, lowest, st, eval).stats.boardsEvaluated >= st.boardsEvaluated
    ensures Max(p, depth, highest, lowest, st, eval).stats.cutOffs >= st.cutOffs
    ensures Min(p, depth, highest, lowest, st, eval).stats.boardsEvaluated >= st.boardsEvaluated
    ensures Min(p, depth, highest, lowest, st, eval).stats.cutOffs >= st.cutOffs
    decreases p, 1
  {
    if !IsLeaf(p, depth) {
      MaxLoopStatsDoNotSteer(p, SmartOrder(p.children), depth, highest, lowest, st, st', eval);
      MinLoopStatsDoNotSteer(p, SmartOrder(p.children), depth, highest, lowest, st, st', eval);
    }
  }

  lemma {:induction false} MaxLoopStatsDoNotSteer(p: Pos, cs: seq<Child>, depth: int, highest: Int32, lowest: Int32, st: Stats, st': Stats, eval: Evaluator)
    requires ChildrenOf(p, cs)
    ensures MaxLoop(p, cs, depth, highest, lowest, st, eval).value == MaxLoop(p, cs, depth, highest, lowest, st', eval).value
    ensures MaxLoop(p, cs, depth, highest, lowest, st, eval).stats.boardsEvaluated >= st.boardsEvaluated
    ensures MaxLoop(p, cs, depth, highest, lowest, st, eval).stats.cutOffs >= st.cutOffs
    decreases p, 0, |cs|
  {
    if |cs| > 0 {
      var c := cs[0];
      if c.status == Done {
        StatsDoNotSteer(c.next, depth - 1, highest, lowest, st, st', eval);
        var a := Min(c.next, depth - 1, highest, lowest, st, eval);
        var a' := Min(c.next, depth - 1, highest, lowest, st', eval);
        var h := if highest >= a.value then highest else a.value;
        if h < lowest {
          MaxLoopStatsDoNotSteer(p, cs[1..], depth, h, lowest, a.stats, a'.stats, eval);
        }
      } else {
        MaxLoopStatsDoNotSteer(p, cs[1..], depth, highest, lowest, st, st', eval);
      }
    }
  }

  lemma {:induction false} MinLoopStatsDoNotSteer(p: Pos, cs: seq<Child>, depth: int, highest: Int32, lowest: Int32, st: Stats, st': Stats, eval: Evaluator)
    requires ChildrenOf(p, cs)
    ensures MinLoop(p, cs, depth, highest, lowest, st, eval).value == MinLoop(p, cs, depth, highest, lowest, st', eval).value
    ensures MinLoop(p, cs, depth, highest, lowest, st, eval).stats.boardsEvaluated >= st.boardsEvaluated
    ensures MinLoop(p, cs, depth, highest, lowest, st, eval).stats.cutOffs >= st.cutOffs
    decreases p, 0, |cs|
  {
    if |cs| > 0 {
      var c := cs[0];
      if c.status == Done {
        StatsDoNotSteer(c.next, depth - 1, highest, lowest, st, st', eval);
        var b := Max(c.next, depth - 1, highest, lowest, st, eval);
        var b' := Max(c.next, depth - 1, highest, lowest, st', eval);
        var l := if lowest <= b.value then lowest else b.value;
        if l > highest {
          MinLoopStatsDoNotSteer(p, cs[1..], depth, highest, l, b.stats, b'.stats, eval);
        }
      } else {
        MinLoopStatsDoNotSteer(p, cs[1..], depth, highest, lowest, st, st', eval);
      }
    }
  }

  /** Counters `a` advanced by the increments `b`. */
  function Plus(a: Stats, b: Stats): Stats
  {
    Stats(a.boardsEvaluated + b.boardsEvaluated, a.cutOffs + b.cutOffs)
  }

  const NoStats: Stats := Stats(0, 0)

  /** The counters are plain increments: a leaf adds exactly one evaluated
      board and no cutoff, a node with no DONE move adds nothing, and what a
      search adds does not depend on the counts it starts from. */
  lemma {:induction false} CountersAreIncrements(p: Pos, depth: int, highest: Int32, lowest: Int32, st: Stats, eval: Evaluator)
    ensures IsLeaf(p, depth) ==>
      && Max(p, depth, highest, lowest, st, eval).stats == Stats(st.boardsEvaluated + 1, st.cutOffs)
      && Min(p, depth, highest, lowest, st, eval).stats == Stats(st.boardsEvaluated + 1, st.cutOffs)
    ensures !IsLeaf(p, depth) && MM.NoneDone(p.children) ==>
      Max(p, depth, highest, lowest, st, eval).stats == st && Min(p, depth, highest, lowest, st, eval).stats == st
    ensures Max(p, depth, highest, lowest, st, eval).stats == Plus(st, Max(p, depth, highest, lowest, NoStats, eval).stats)
    ensures Min(p, depth, highest, lowest, st, eval).stats == Plus(st, Min(p, depth, highest, lowest, NoStats, eval).stats)
    decreases p, 1
  {
    if !IsLeaf(p, depth) {
      var cs := SmartOrder(p.children);
      MaxLoopCountersAreIncrements(p, cs, depth, highest, lowest, st, eval);
      MinLoopCountersAreIncrements(p, cs, depth, highest, lowest, st, eval);
      if MM.NoneDone(p.children) {
        forall k | 0 <= k < |cs| ensures cs[k].status != Done {
          assert cs[k] in p.children;
        }
        NothingDoneCountsNothing(p, cs, depth, highest, lowest, st, eval);
      }
    }
  }

  /** `max`'s loop adds to the counters only what its searches add: the
      increments do not depend on the counts it starts from. */
  lemma {:induction false} MaxLoopCountersAreIncrements(p: Pos, cs: seq<Child>, depth: int, highest: Int32, lowest: Int32, st: Stats, eval: Evaluator)
    requires ChildrenOf(p, cs)
    ensures MaxLoop(p, cs, depth, highest, lowest, st, eval).stats == Plus(st, MaxLoop(p, cs, depth, highest, lowest, NoStats, eval).stats)
    decreases p, 0, |cs|
  {
    if |cs| > 0 {
      var c := cs[0];
      var r := MaxLoop(p, cs, depth, highest, lowest, st, eval);
      var r0 := MaxLoop(p, cs, depth, highest, lowest, NoStats, eval);
      if c.status == Done {
        CountersAreIncrements(c.next, depth - 1, highest, lowest, st, eval);
        StatsDoNotSteer(c.next, depth - 1, highest, lowest, st, NoStats, eval);
        var a := Min(c.next, depth - 1, highest, lowest, st, eval);
        var z := Min(c.next, depth - 1, highest, lowest, NoStats, eval);
        assert a.value == z.value && a.stats == Plus(st, z.stats);
        var h := if highest >= a.value then highest else a.value;
        if h < lowest {
          MaxLoopCountersAreIncrements(p, cs[1..], depth, h, lowest, a.stats, eval);
          MaxLoopCountersAreIncrements(p, cs[1..], depth, h, lowest, z.stats, eval);
          assert r == MaxLoop(p, cs[1..], depth, h, lowest, a.stats, eval);
          assert r0 == MaxLoop(p, cs[1..], depth, h, lowest, z.stats, eval);
        } else {
          assert r.stats == a.stats.(cutOffs := a.stats.cutOffs + 1);
          assert r0.stats == z.stats.(cutOffs := z.stats.cutOffs + 1);
        }
      } else {
        MaxLoopCountersAreIncrements(p, cs[1..], depth, highest, lowest, st, eval);
        MaxLoopCountersAreIncrements(p, cs[1..], depth, highest, lowest, NoStats, eval);
      }
    }
  }

  /** The mirror image of `MaxLoopCountersAreIncrements` for `min`'s loop. */
  lemma {:induction false} MinLoopCountersAreIncrements(p: Pos, cs: seq<Child>, depth: int, highest: Int32, lowest: Int32, st: Stats, eval: Evaluator)
    requires ChildrenOf(p, cs)
    ensures MinLoop(p, cs, depth, highest, lowest, st, eval).stats == Plus(st, MinLoop(p, cs, depth, highest, lowest, NoStats, eval).stats)
    decreases p, 0, |cs|
  {
    if |cs| > 0 {
      var c := cs[0];
      var r := MinLoop(p, cs, depth, highest, lowest, st, eval);
      var r0 := MinLoop(p, cs, depth, highest, lowest, NoStats, eval);
      if c.status == Done {
        CountersAreIncrements(c.next, depth - 1, highest, lowest, st, eval);
        StatsDoNotSteer(c.next, depth - 1, highest, lowest, st, NoStats, eval);
        var b := Max(c.next, depth - 1, highest, lowest, st, eval);
        var z := Max(c.next, depth - 1, highest, lowest, NoStats, eval);
        assert b.value == z.value && b.stats == Plus(st, z.stats);
        var l := if lowest <= b.value then lowest else b.value;
        if l > highest {
          MinLoopCountersAreIncrements(p, cs[1..], depth, highest, l, b.stats, eval);
          MinLoopCountersAreIncrements(p, cs[1..], depth, highest, l, z.stats, eval);
          assert r == MinLoop(p, cs[1..], depth, highest, l, b.stats, eval);
          assert r0 == MinLoop(p, cs[1..], depth, highest, l, z.stats, eval);
        } else {
          assert r.stats == b.stats.(cutOffs := b.stats.cutOffs + 1);
          assert r0.stats == z.stats.(cutOffs := z.stats.cutOffs + 1);
        }
      } else {
        MinLoopCountersAreIncrements(p, cs[1..], depth, highest, lowest, st, eval);
        MinLoopCountersAreIncrements(p, cs[1..], depth, highest, lowest, NoStats, eval);
      }
    }
  }

  /** A loop over moves none of which is DONE searches nothing and leaves
      the counters as they were. */
  lemma {:induction false} NothingDoneCountsNothing(p: Pos, cs: seq<Child>, depth: int, highest: Int32, lowest: Int32, st: Stats, eval: Evaluator)
    requires ChildrenOf(p, cs)
    ensures MM.NoneDone(cs) ==>
      MaxLoop(p, cs, depth, highest, lowest, st, eval).stats == st && MinLoop(p, cs, depth, highest, lowest, st, eval).stats == st
    decreases |cs|
  {
    if |cs| > 0 && MM.NoneDone(cs) {
      assert MM.NoneDone(cs[1..]) by {
        forall k | 0 <= k < |cs[1..]| ensures cs[1..][k].status != Done {
          assert cs[1..][k] == cs[k + 1];
        }
      }
      NothingDoneCountsNothing(p, cs[1..], depth, highest, lowest, st, eval);
    }
  }

  /** A cutoff adds exactly one to `cutOffsProduced` on top of the counts
      of the search that caused it, and ends the loop. */
  lemma CutoffCountsOne(p: Pos, cs: seq<Child>, depth: int, highest: Int32, lowest: Int32, st: Stats, eval: Evaluator)
    requires ChildrenOf(p, cs) && |cs| > 0 && cs[0].status == Done
    ensures var o := Min(cs[0].next, depth - 1, highest, lowest, st, eval);
      lowest <= Max2(highest, o.value) ==>
        MaxLoop(p, cs, depth, highest, lowest, st, eval) == Outcome(Max2(highest, o.value), Plus(o.stats, Stats(0, 1)))
    ensures var o := Max(cs[0].next, depth - 1, highest, lowest, st, eval);
      Min2(lowest, o.value) <= highest ==>
        MinLoop(p, cs, depth, highest, lowest, st, eval) == Outcome(Min2(lowest, o.value), Plus(o.stats, Stats(0, 1)))
  {
  }

  /** The root loop over the (sorted) candidates: white calls `min` and
      black `max` on each DONE candidate with the window
      (highestSeenValue, lowestSeenValue); only a strictly better value
      replaces the best move. */
  function RootLoop(side: Side, cs: seq<Child>, depth: int, acc: Pick, st: Stats, eval: Evaluator): (Pick, Stats)
    decreases |cs|
  {
    if |cs| == 0 then (acc, st)
    else
      var c := cs[0];
      if c.status != Done then RootLoop(side, cs[1..], depth, Update(side, false, acc, Scored(c, None)), st, eval)
      else
        var o := if side == White then Min(c.next, depth - 1, acc.highest, acc.lowest, st, eval)
                 else Max(c.next, depth - 1, acc.highest, acc.lowest, st, eval);
        RootLoop(side, cs[1..], depth, Update(side, false, acc, Scored(c, Some(o.value))), o.stats, eval)
  }

  /** The root loop chooses exactly as strict selection over the plain
      minimax values of the candidates, in the order visited. */
  lemma {:induction false} RootLoopIsStrictSelect(side: Side, cs: seq<Child>, depth: int, acc: Pick, st: Stats, eval: Evaluator)
    requires side == White ==> acc.lowest == MAX_INT
    requires side == Black ==> acc.highest == MIN_INT
    ensures RootLoop(side, cs, depth, acc, st, eval).0 == Select(side, false, MM.RootScores(side, cs, depth, eval), acc)
    decreases |cs|
  {
    if |cs| > 0 {
      var c := cs[0];
      var xs := MM.RootScores(side, cs, depth, eval);
      assert xs[1..] == MM.RootScores(side, cs[1..], depth, eval);
      if c.status == Done {
        var o := if side == White then Min(c.next, depth - 1, acc.highest, acc.lowest, st, eval)
                 else Max(c.next, depth - 1, acc.highest, acc.lowest, st, eval);
        if side == White {
          MinIsSoftClamp(c.next, depth - 1, acc.highest, acc.lowest, st, eval);
        } else {
          MaxIsSoftClamp(c.next, depth - 1, acc.highest, acc.lowest, st, eval);
        }
        assert Update(side, false, acc, Scored(c, Some(o.value))) == Update(side, false, acc, xs[0]);
        RootLoopIsStrictSelect(side, cs[1..], depth, Update(side, false, acc, xs[0]), o.stats, eval);
      } else {
        RootLoopIsStrictSelect(side, cs[1..], depth, Update(side, false, acc, xs[0]), st, eval);
      }
    }
  }

  /** The candidates `execute` searches, in the order it searches them:
      the filtered root moves (with the queen probe), SMART-sorted. */
  function Candidates(p: Pos, look: Child -> Lookahead): (cs: seq<Child>)
    ensures forall c :: c in cs ==> c in p.children
    ensures |cs| == 0 <==> |p.children| == 0
  {
    SmartOrder(RootCandidates(p.children, look, true))
  }

  /** The root loop over all candidates: strict selection over their
      plain minimax values. */
  function Search(p: Pos, depth: int, look: Child -> Lookahead, st: Stats, eval: Evaluator): (r: (Pick, Stats))
    ensures r.0 == Select(p.toMove, false, MM.RootScores(p.toMove, Candidates(p, look), depth, eval), Initial)
  {
    RootLoopIsStrictSelect(p.toMove, Candidates(p, look), depth, Initial, st, eval);
    RootLoop(p.toMove, Candidates(p, look), depth, Initial, st, eval)
  }

  /** `execute`: the first best candidate (by minimax value, in SMART
      order), or the null move when none strictly beats the initial bound. */
  function Execute(p: Pos, depth: int, look: Child -> Lookahead, st: Stats, eval: Evaluator): (r: (Option<Move>, Stats))
    ensures r.0 == None <==> MM.NoneBeatsInitial(p.toMove, Candidates(p, look), depth, eval)
    ensures r.0.Some? ==> exists k ::
      && MM.IsBestCandidate(p.toMove, Candidates(p, look), k, depth, eval)
      && MM.EarlierAreWorse(p.toMove, Candidates(p, look), k, depth, eval)
      && Candidates(p, look)[k].move == r.0.value
  {
    MM.StrictChoice(p.toMove, Candidates(p, look), depth, eval);
    var r := Search(p, depth, look, st, eval);
    (if r.0.best.Some? then Some(r.0.best.value.move) else None, r.1)
  }
}
