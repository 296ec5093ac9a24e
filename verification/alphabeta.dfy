/** Fail-hard alpha-beta (JChess `AlphaBeta`). `max` raises its running
    alpha (`currentHighest`) and returns beta (`lowest`) as soon as alpha
    reaches it; `min` is the mirror image. The root loop passes its own best
    values as the window and replaces only on a strictly better value. */
module AlphaBetaSearch {
  import opened Common
  import opened GameTree
  import opened RootSelection
  import MM = MiniMaxSearch

  function Max(p: Pos, depth: int, highest: Int32, lowest: Int32, eval: Evaluator): Int32
    decreases p, 1
  {
    if IsLeaf(p, depth) then eval(p, depth) else MaxLoop(p, 0, depth, highest, lowest, eval)
  }

  /** The `for` loop of `max` from child `i` on, alpha being `highest`. */
  function MaxLoop(p: Pos, i: nat, depth: int, highest: Int32, lowest: Int32, eval: Evaluator): Int32
    requires i <= |p.children|
    decreases p, 0, |p.children| - i
  {
    if i == |p.children| then highest
    else
      var c := p.children[i];
      if c.status == Done then
        var v := Min(c.next, depth - 1, highest, lowest, eval);
        var h := if highest >= v then highest else v;
        if h >= lowest then lowest else MaxLoop(p, i + 1, depth, h, lowest, eval)
      else MaxLoop(p, i + 1, depth, highest, lowest, eval)
  }

  function Min(p: Pos, depth: int, highest: Int32, lowest: Int32, eval: Evaluator): Int32
    decreases p, 1
  {
    if IsLeaf(p, depth) then eval(p, depth) else MinLoop(p, 0, depth, highest, lowest, eval)
  }

  /** The `for` loop of `min` from child `i` on, beta being `lowest`. */
  function MinLoop(p: Pos, i: nat, depth: int, highest: Int32, lowest: Int32, eval: Evaluator): Int32
    requires i <= |p.children|
    decreases p, 0, |p.children| - i
  {
    if i == |p.children| then lowest
    else
      var c := p.children[i];
      if c.status == Done then
        var v := Max(c.next, depth - 1, highest, lowest, eval);
        var l := if lowest <= v then lowest else v;
        if l <= highest then highest else MinLoop(p, i + 1, depth, highest, l, eval)
      else MinLoop(p, i + 1, depth, highest, lowest, eval)
  }

  /** Alpha-beta `max` is the minimax value clamped to the window: beta on a
      cutoff, otherwise the larger of alpha and the minimax value. Leaves
      are evaluated exactly. */
  lemma {:induction false} MaxIsClampedMiniMax(p: Pos, depth: int, alpha: Int32, beta: Int32, eval: Evaluator)
    requires alpha <= beta
    ensures var v := MM.Max(p, depth, eval);
      Max(p, depth, alpha, beta, eval) == if IsLeaf(p, depth) then v else if v >= beta then beta else Max2(alpha, v)
    decreases p, 1
  {
    if !IsLeaf(p, depth) {
      MaxLoopIsClamped(p, 0, depth, alpha, beta, eval);
    }
  }

  /** Alpha-beta `min` is the minimax value clamped to the window: alpha on
      a cutoff, otherwise the smaller of beta and the minimax value. */
  lemma {:induction false} MinIsClampedMiniMax(p: Pos, depth: int, alpha: Int32, beta: Int32, eval: Evaluator)
    requires alpha <= beta
    ensures var v := MM.Min(p, depth, eval);
      Min(p, depth, alpha, beta, eval) == if IsLeaf(p, depth) then v else if v <= alpha then alpha else Min2(beta, v)
    decreases p, 1
  {
    if !IsLeaf(p, depth) {
      MinLoopIsClamped(p, 0, depth, alpha, beta, eval);
    }
  }

  lemma {:induction false} MaxLoopIsClamped(p: Pos, i: nat, depth: int, cur: Int32, beta: Int32, eval: Evaluator)
    requires i <= |p.children| && cur <= beta
    ensures var m := MM.MaxLoop(p, i, depth, MIN_INT, eval);
      MaxLoop(p, i, depth, cur, beta, eval) == if m >= beta then beta else Max2(cur, m)
    decreases p, 0, |p.children| - i
  {
    if i < |p.children| {
      var c := p.children[i];
      if c.status == Done {
        MinIsClampedMiniMax(c.next, depth - 1, cur, beta, eval);
        var w := MM.Min(c.next, depth - 1, eval);
        MM.MaxLoopFrom(p, i + 1, depth, w, eval);
        var v := Min(c.next, depth - 1, cur, beta, eval);
        var h := if cur >= v then cur else v;
        if h < beta {
          MaxLoopIsClamped(p, i + 1, depth, h, beta, eval);
        }
      } else {
        MaxLoopIsClamped(p, i + 1, depth, cur, beta, eval);
      }
    }
  }

  lemma {:induction false} MinLoopIsClamped(p: Pos, i: nat, depth: int, alpha: Int32, cur: Int32, eval: Evaluator)
    requires i <= |p.children| && alpha <= cur
    ensures var m := MM.MinLoop(p, i, depth, MAX_INT, eval);
      MinLoop(p, i, depth, alpha, cur, eval) == if m <= alpha then alpha else Min2(cur, m)
    decreases p, 0, |p.children| - i
  {
    if i < |p.children| {
      var c := p.children[i];
      if c.status == Done {
        MaxIsClampedMiniMax(c.next, depth - 1, alpha, cur, eval);
        var w := MM.Max(c.next, depth - 1, eval);
        MM.MinLoopFrom(p, i + 1, depth, w, eval);
        var v := Max(c.next, depth - 1, alpha, cur, eval);
        var l := if cur <= v then cur else v;
        if l > alpha {
          MinLoopIsClamped(p, i + 1, depth, alpha, l, eval);
        }
      } else {
        MinLoopIsClamped(p, i + 1, depth, alpha, cur, eval);
      }
    }
  }

  /** The root loop of `execute` from candidate `i` on: white calls `min`
      and black calls `max` with the window (highestSeenValue,
      lowestSeenValue), and only a strictly better value replaces. */
  function RootLoop(p: Pos, i: nat, depth: int, acc: Pick, eval: Evaluator): Pick
    requires i <= |p.children|
    decreases |p.children| - i
  {
    if i == |p.children| then acc
    else
      var c := p.children[i];
      var s := if c.status != Done then Scored(c, None)
               else if p.toMove == White then Scored(c, Some(Min(c.next, depth - 1, acc.highest, acc.lowest, eval)))
               else Scored(c, Some(Max(c.next, depth - 1, acc.highest, acc.lowest, eval)));
      RootLoop(p, i + 1, depth, Update(p.toMove, false, acc, s), eval)
  }

  /** The root loop with the alpha-beta window makes exactly the choices a
      strict-replacement loop over the plain minimax values would make. */
  lemma {:induction false} RootLoopIsStrictSelect(p: Pos, i: nat, depth: int, acc: Pick, eval: Evaluator)
    requires i <= |p.children|
    requires p.toMove == White ==> acc.lowest == MAX_INT
    requires p.toMove == Black ==> acc.highest == MIN_INT
    ensures RootLoop(p, i, depth, acc, eval)
         == Select(p.toMove, false, MM.RootScores(p.toMove, p.children, depth, eval)[i..], acc)
    decreases |p.children| - i
  {
    var xs := MM.RootScores(p.toMove, p.children, depth, eval);
    if i < |p.children| {
      var c := p.children[i];
      if c.status == Done {
        if p.toMove == White {
          MinIsClampedMiniMax(c.next, depth - 1, acc.highest, acc.lowest, eval);
        } else {
          MaxIsClampedMiniMax(c.next, depth - 1, acc.highest, acc.lowest, eval);
        }
      }
      var s := if c.status != Done then Scored(c, None)
               else if p.toMove == White then Scored(c, Some(Min(c.next, depth - 1, acc.highest, acc.lowest, eval)))
               else Scored(c, Some(Max(c.next, depth - 1, acc.highest, acc.lowest, eval)));
      assert Update(p.toMove, false, acc, s) == Update(p.toMove, false, acc, xs[i]);
      assert xs[i..][0] == xs[i] && xs[i..][1..] == xs[i + 1..];
      RootLoopIsStrictSelect(p, i + 1, depth, Update(p.toMove, false, acc, s), eval);
    }
  }

  /** The whole root loop, equal to strict selection over minimax values. */
  function Search(p: Pos, depth: int, eval: Evaluator): (r: Pick)
    ensures r == Select(p.toMove, false, MM.RootScores(p.toMove, p.children, depth, eval), Initial)
  {
    RootLoopIsStrictSelect(p, 0, depth, Initial, eval);
    assert MM.RootScores(p.toMove, p.children, depth, eval)[0..] == MM.RootScores(p.toMove, p.children, depth, eval);
    RootLoop(p, 0, depth, Initial, eval)
  }

  /** `execute`: the FIRST DONE move whose minimax value is best. It is null
      when no DONE move strictly improves on the initial MIN_VALUE (white)
      or MAX_VALUE (black), which includes having no DONE move at all. */
  function Execute(p: Pos, depth: int, eval: Evaluator): (r: Option<Move>)
    ensures r == None <==> MM.NoneBeatsInitial(p.toMove, p.children, depth, eval)
    ensures r.Some? ==> exists k ::
      && MM.IsBestCandidate(p.toMove, p.children, k, depth, eval)
      && MM.EarlierAreWorse(p.toMove, p.children, k, depth, eval)
      && p.children[k].move == r.value
  {
    MM.StrictChoice(p.toMove, p.children, depth, eval);
    var pick := Search(p, depth, eval);
    if pick.best.Some? then Some(pick.best.value.move) else None
  }

  /** Whenever alpha-beta chooses a move, plain minimax chooses one too, and
      the two moves have the same minimax value: pruning changes at most
      which of several equally good moves is played. */
  lemma AgreesWithMiniMax(p: Pos, depth: int, eval: Evaluator)
    ensures Execute(p, depth, eval).Some? ==> MM.Execute(p, depth, eval).Some?
    ensures var a := Execute(p, depth, eval); var m := MM.Execute(p, depth, eval);
      a.Some? ==> exists ka, km ::
        && MM.IsBestCandidate(p.toMove, p.children, ka, depth, eval)
        && MM.IsBestCandidate(p.toMove, p.children, km, depth, eval)
        && p.children[ka].move == a.value && p.children[km].move == m.value
        && MM.RootValue(p.toMove, p.children[ka], depth, eval) == MM.RootValue(p.toMove, p.children[km], depth, eval)
  {
    var a := Execute(p, depth, eval);
    var m := MM.Execute(p, depth, eval);
    if a.Some? {
      var ka :| MM.IsBestCandidate(p.toMove, p.children, ka, depth, eval) && p.children[ka].move == a.value;
      assert !MM.NoneDone(p.children);
      var km :| MM.IsBestCandidate(p.toMove, p.children, km, depth, eval) && p.children[km].move == m.value;
    }
  }
}
