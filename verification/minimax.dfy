/** Plain fixed-depth minimax (JChess `MiniMax`): `min` and `max` alternate,
    stop at depth 0 or at a checkmate/stalemate position, and skip every
    transition that is not DONE. The root loop replaces its best move on
    ties, so the last of several equally good moves is returned. */
module MiniMaxSearch {
  import opened Common
  import opened GameTree
  import opened RootSelection

  function Min(p: Pos, depth: int, eval: Evaluator): Int32
    decreases p, 1
  {
    if IsLeaf(p, depth) then eval(p, depth) else MinLoop(p, 0, depth, MAX_INT, eval)
  }

  /** The `for` loop of `min` from child `i` on, with `lowestSeenValue` so far. */
  function MinLoop(p: Pos, i: nat, depth: int, lowest: Int32, eval: Evaluator): Int32
    requires i <= |p.children|
    decreases p, 0, |p.children| - i
  {
    if i == |p.children| then lowest
    else
      var c := p.children[i];
      if c.status == Done then
        var v := Max(c.next, depth - 1, eval);
        MinLoop(p, i + 1, depth, if v <= lowest then v else lowest, eval)
      else MinLoop(p, i + 1, depth, lowest, eval)
  }

  function Max(p: Pos, depth: int, eval: Evaluator): Int32
    decreases p, 1
  {
    if IsLeaf(p, depth) then eval(p, depth) else MaxLoop(p, 0, depth, MIN_INT, eval)
  }

  /** The `for` loop of `max` from child `i` on, with `highestSeenValue` so far. */
  function MaxLoop(p: Pos, i: nat, depth: int, highest: Int32, eval: Evaluator): Int32
    requires i <= |p.children|
    decreases p, 0, |p.children| - i
  {
    if i == |p.children| then highest
    else
      var c := p.children[i];
      if c.status == Done then
        var v := Min(c.next, depth - 1, eval);
        MaxLoop(p, i + 1, depth, if v >= highest then v else highest, eval)
      else MaxLoop(p, i + 1, depth, highest, eval)
  }

  /** Starting the `min` loop from any `lowest` is the same as starting it
      from Integer.MAX_VALUE and taking the smaller of the two. */
  lemma {:induction false} MinLoopFrom(p: Pos, i: nat, depth: int, lowest: Int32, eval: Evaluator)
    requires i <= |p.children|
    ensures MinLoop(p, i, depth, lowest, eval) == Min2(lowest, MinLoop(p, i, depth, MAX_INT, eval))
    decreases |p.children| - i
  {
    if i < |p.children| {
      var c := p.children[i];
      if c.status == Done {
        var v := Max(c.next, depth - 1, eval);
        MinLoopFrom(p, i + 1, depth, if v <= lowest then v else lowest, eval);
        MinLoopFrom(p, i + 1, depth, v, eval);
      } else {
        MinLoopFrom(p, i + 1, depth, lowest, eval);
      }
    }
  }

  /** Starting the `max` loop from any `highest` is the same as starting it
      from Integer.MIN_VALUE and taking the larger of the two. */
  lemma {:induction false} MaxLoopFrom(p: Pos, i: nat, depth: int, highest: Int32, eval: Evaluator)
    requires i <= |p.children|
    ensures MaxLoop(p, i, depth, highest, eval) == Max2(highest, MaxLoop(p, i, depth, MIN_INT, eval))
    decreases |p.children| - i
  {
    if i < |p.children| {
      var c := p.children[i];
      if c.status == Done {
        var v := Min(c.next, depth - 1, eval);
        MaxLoopFrom(p, i + 1, depth, if v >= highest then v else highest, eval);
        MaxLoopFrom(p, i + 1, depth, v, eval);
      } else {
        MaxLoopFrom(p, i + 1, depth, highest, eval);
      }
    }
  }

  /** The values a `min` node compares: `max` of every DONE child in `cs`,
      one ply deeper. */
  ghost function MinCandidates(cs: seq<Child>, depth: int, eval: Evaluator): set<int>
  {
    set c | c in cs && c.status == Done :: Max(c.next, depth - 1, eval)
  }

  /** The values a `max` node compares: `min` of every DONE child in `cs`,
      one ply deeper. */
  ghost function MaxCandidates(cs: seq<Child>, depth: int, eval: Evaluator): set<int>
  {
    set c | c in cs && c.status == Done :: Min(c.next, depth - 1, eval)
  }

  /** `r` is the least element of `s`, or `empty` when `s` has none. */
  ghost predicate IsLeastOr(r: int, s: set<int>, empty: int)
  {
    (s == {} ==> r == empty) && (s != {} ==> r in s && forall y :: y in s ==> r <= y)
  }

  /** `r` is the greatest element of `s`, or `empty` when `s` has none. */
  ghost predicate IsGreatestOr(r: int, s: set<int>, empty: int)
  {
    (s == {} ==> r == empty) && (s != {} ==> r in s && forall y :: y in s ==> y <= r)
  }

  lemma {:induction false} MinLoopIsLeast(p: Pos, i: nat, depth: int, lowest: Int32, eval: Evaluator)
    requires i <= |p.children|
    ensures var r := MinLoop(p, i, depth, lowest, eval);
      && r <= lowest
      && (forall k :: i <= k < |p.children| && p.children[k].status == Done ==> r <= Max(p.children[k].next, depth - 1, eval))
      && (r == lowest || exists k :: i <= k < |p.children| && p.children[k].status == Done && r == Max(p.children[k].next, depth - 1, eval))
    decreases |p.children| - i
  {
    if i < |p.children| {
      var c := p.children[i];
      if c.status == Done {
        var v := Max(c.next, depth - 1, eval);
        MinLoopIsLeast(p, i + 1, depth, if v <= lowest then v else lowest, eval);
      } else {
        MinLoopIsLeast(p, i + 1, depth, lowest, eval);
      }
    }
  }

  lemma {:induction false} MaxLoopIsGreatest(p: Pos, i: nat, depth: int, highest: Int32, eval: Evaluator)
    requires i <= |p.children|
    ensures var r := MaxLoop(p, i, depth, highest, eval);
      && r >= highest
      && (forall k :: i <= k < |p.children| && p.children[k].status == Done ==> Min(p.children[k].next, depth - 1, eval) <= r)
      && (r == highest || exists k :: i <= k < |p.children| && p.children[k].status == Done && r == Min(p.children[k].next, depth - 1, eval))
    decreases |p.children| - i
  {
    if i < |p.children| {
      var c := p.children[i];
      if c.status == Done {
        var v := Min(c.next, depth - 1, eval);
        MaxLoopIsGreatest(p, i + 1, depth, if v >= highest then v else highest, eval);
      } else {
        MaxLoopIsGreatest(p, i + 1, depth, highest, eval);
      }
    }
  }

  /** `min` evaluates a leaf (depth 0 or game over) and otherwise returns the
      least `max` over its DONE children, or Integer.MAX_VALUE if none. */
  lemma MinValue(p: Pos, depth: int, eval: Evaluator)
    ensures IsLeaf(p, depth) ==> Min(p, depth, eval) == eval(p, depth)
    ensures !IsLeaf(p, depth) ==> IsLeastOr(Min(p, depth, eval), MinCandidates(p.children, depth, eval), MAX_INT)
  {
    if !IsLeaf(p, depth) {
      MinLoopIsLeast(p, 0, depth, MAX_INT, eval);
      var r := Min(p, depth, eval);
      var s := MinCandidates(p.children, depth, eval);
      if r == MAX_INT && s != {} {
        var y :| y in s;
        var c :| c in p.children && c.status == Done && y == Max(c.next, depth - 1, eval);
        var k :| 0 <= k < |p.children| && p.children[k] == c;
        assert r <= y;
      }
      if r != MAX_INT {
        var k :| 0 <= k < |p.children| && p.children[k].status == Done && r == Max(p.children[k].next, depth - 1, eval);
        assert p.children[k] in p.children;
        assert r in s;
      }
    }
  }

  /** `max` evaluates a leaf and otherwise returns the greatest `min` over
      its DONE children, or Integer.MIN_VALUE if none. */
  lemma MaxValue(p: Pos, depth: int, eval: Evaluator)
    ensures IsLeaf(p, depth) ==> Max(p, depth, eval) == eval(p, depth)
    ensures !IsLeaf(p, depth) ==> IsGreatestOr(Max(p, depth, eval), MaxCandidates(p.children, depth, eval), MIN_INT)
  {
    if !IsLeaf(p, depth) {
      MaxLoopIsGreatest(p, 0, depth, MIN_INT, eval);
      var r := Max(p, depth, eval);
      var s := MaxCandidates(p.children, depth, eval);
      if r == MIN_INT && s != {} {
        var y :| y in s;
        var c :| c in p.children && c.status == Done && y == Min(c.next, depth - 1, eval);
        var k :| 0 <= k < |p.children| && p.children[k] == c;
        assert y <= r;
      }
      if r != MIN_INT {
        var k :| 0 <= k < |p.children| && p.children[k].status == Done && r == Min(p.children[k].next, depth - 1, eval);
        assert p.children[k] in p.children;
        assert r in s;
      }
    }
  }

  /** The greatest value `max` could see among the DONE children in `cs`
      (Integer.MIN_VALUE if none), whatever order they are visited in. */
  function BestForMax(cs: seq<Child>, depth: int, eval: Evaluator): Int32
  {
    if |cs| == 0 then MIN_INT
    else
      var rest := BestForMax(cs[1..], depth, eval);
      if cs[0].status != Done then rest
      else
        var v := Min(cs[0].next, depth - 1, eval);
        if v >= rest then v else rest
  }

  /** The least value `min` could see among the DONE children in `cs`
      (Integer.MAX_VALUE if none). */
  function BestForMin(cs: seq<Child>, depth: int, eval: Evaluator): Int32
  {
    if |cs| == 0 then MAX_INT
    else
      var rest := BestForMin(cs[1..], depth, eval);
      if cs[0].status != Done then rest
      else
        var v := Max(cs[0].next, depth - 1, eval);
        if v <= rest then v else rest
  }

  lemma {:induction false} BestForMaxIsGreatest(cs: seq<Child>, depth: int, eval: Evaluator)
    ensures IsGreatestOr(BestForMax(cs, depth, eval), MaxCandidates(cs, depth, eval), MIN_INT)
  {
    if |cs| > 0 {
      BestForMaxIsGreatest(cs[1..], depth, eval);
      assert cs == [cs[0]] + cs[1..];
      var c := cs[0];
      if c.status == Done {
        assert MaxCandidates(cs, depth, eval) == {Min(c.next, depth - 1, eval)} + MaxCandidates(cs[1..], depth, eval);
      } else {
        assert MaxCandidates(cs, depth, eval) == MaxCandidates(cs[1..], depth, eval);
      }
    }
  }

  lemma {:induction false} BestForMinIsLeast(cs: seq<Child>, depth: int, eval: Evaluator)
    ensures IsLeastOr(BestForMin(cs, depth, eval), MinCandidates(cs, depth, eval), MAX_INT)
  {
    if |cs| > 0 {
      BestForMinIsLeast(cs[1..], depth, eval);
      assert cs == [cs[0]] + cs[1..];
      var c := cs[0];
      if c.status == Done {
        assert MinCandidates(cs, depth, eval) == {Max(c.next, depth - 1, eval)} + MinCandidates(cs[1..], depth, eval);
      } else {
        assert MinCandidates(cs, depth, eval) == MinCandidates(cs[1..], depth, eval);
      }
    }
  }

  /** Visiting the children of an inner node in any order that keeps the
      same DONE children yields the `max` and `min` values. */
  lemma ValueOfAnyOrder(p: Pos, cs: seq<Child>, depth: int, eval: Evaluator)
    requires !IsLeaf(p, depth)
    requires forall c :: c in cs && c.status == Done <==> c in p.children && c.status == Done
    ensures BestForMax(cs, depth, eval) == Max(p, depth, eval)
    ensures BestForMin(cs, depth, eval) == Min(p, depth, eval)
  {
    SameDoneChildren(p.children, cs, depth, eval);
    BestForMaxIsGreatest(cs, depth, eval);
    BestForMinIsLeast(cs, depth, eval);
    MaxValue(p, depth, eval);
    MinValue(p, depth, eval);
    if MaxCandidates(cs, depth, eval) != {} {
      assert BestForMax(cs, depth, eval) <= Max(p, depth, eval) <= BestForMax(cs, depth, eval);
    }
    if MinCandidates(cs, depth, eval) != {} {
      assert BestForMin(cs, depth, eval) <= Min(p, depth, eval) <= BestForMin(cs, depth, eval);
    }
  }

  /** The same position with every transition that is not DONE removed. */
  function DoneOnly(p: Pos): (q: Pos)
    ensures forall c :: c in q.children <==> c in p.children && c.status == Done
  {
    p.(children := Filter(p.children, (c: Child) => c.status == Done))
  }

  /** Transitions that are not DONE never influence the value of an inner
      node: dropping them leaves both `min` and `max` unchanged. (At a leaf
      the evaluator sees the whole position, so nothing is claimed there.) */
  lemma NotDoneIsIgnored(p: Pos, depth: int, eval: Evaluator)
    requires !IsLeaf(p, depth)
    ensures Min(DoneOnly(p), depth, eval) == Min(p, depth, eval)
    ensures Max(DoneOnly(p), depth, eval) == Max(p, depth, eval)
  {
    var q := DoneOnly(p);
    assert !IsLeaf(q, depth);
    MinValue(p, depth, eval);
    MinValue(q, depth, eval);
    MaxValue(p, depth, eval);
    MaxValue(q, depth, eval);
    SameDoneChildren(p.children, q.children, depth, eval);
    if MinCandidates(p.children, depth, eval) != {} {
      assert Min(q, depth, eval) <= Min(p, depth, eval) <= Min(q, depth, eval);
    }
    if MaxCandidates(p.children, depth, eval) != {} {
      assert Max(q, depth, eval) <= Max(p, depth, eval) <= Max(q, depth, eval);
    }
  }

  /** The candidate values depend only on which DONE children there are. */
  lemma SameDoneChildren(cs: seq<Child>, ds: seq<Child>, depth: int, eval: Evaluator)
    requires forall c :: c in ds && c.status == Done <==> c in cs && c.status == Done
    ensures MinCandidates(ds, depth, eval) == MinCandidates(cs, depth, eval)
    ensures MaxCandidates(ds, depth, eval) == MaxCandidates(cs, depth, eval)
  {
  }

  /** What the root loop computes for one legal move: white calls `min` on
      the resulting position, black calls `max`; a move that is not DONE is
      never searched. */
  function RootScore(side: Side, c: Child, depth: int, eval: Evaluator): Scored
  {
    Scored(c, if c.status != Done then None
              else if side == White then Some(Min(c.next, depth - 1, eval))
              else Some(Max(c.next, depth - 1, eval)))
  }

  function RootScores(side: Side, cs: seq<Child>, depth: int, eval: Evaluator): (xs: seq<Scored>)
    ensures |xs| == |cs|
    ensures forall k :: 0 <= k < |cs| ==> xs[k] == RootScore(side, cs[k], depth, eval)
  {
    seq(|cs|, k requires 0 <= k < |cs| => RootScore(side, cs[k], depth, eval))
  }

  /** The root loop of `execute` with its final best move and extremes. */
  function Search(p: Pos, depth: int, eval: Evaluator): Pick
  {
    Select(p.toMove, true, RootScores(p.toMove, p.children, depth, eval), Initial)
  }

  /** The value the root loop assigns to the legal move `c`. */
  function RootValue(side: Side, c: Child, depth: int, eval: Evaluator): Int32
  {
    if side == White then Min(c.next, depth - 1, eval) else Max(c.next, depth - 1, eval)
  }

  /** Candidate `k` is DONE and no DONE candidate has a better value. */
  ghost predicate IsBestCandidate(side: Side, cs: seq<Child>, k: int, depth: int, eval: Evaluator)
  {
    && 0 <= k < |cs| && cs[k].status == Done
    && forall j :: 0 <= j < |cs| && cs[j].status == Done ==>
         !Beats(side, RootValue(side, cs[j], depth, eval), RootValue(side, cs[k], depth, eval))
  }

  /** Every DONE candidate before `k` is strictly worse. */
  ghost predicate EarlierAreWorse(side: Side, cs: seq<Child>, k: int, depth: int, eval: Evaluator)
    requires 0 <= k < |cs|
  {
    forall j :: 0 <= j < k && cs[j].status == Done ==>
      Beats(side, RootValue(side, cs[k], depth, eval), RootValue(side, cs[j], depth, eval))
  }

  /** No DONE candidate strictly beats the initial bound (Integer.MIN_VALUE
      for white, Integer.MAX_VALUE for black). */
  ghost predicate NoneBeatsInitial(side: Side, cs: seq<Child>, depth: int, eval: Evaluator)
  {
    forall k :: 0 <= k < |cs| && cs[k].status == Done ==>
      !Beats(side, RootValue(side, cs[k], depth, eval), Extreme(side, Initial))
  }

  /** Strict replacement over the minimax values of `cs` (the alpha-beta
      root loops) picks the FIRST best candidate, and nothing exactly when
      no candidate beats the initial bound. */
  lemma StrictChoice(side: Side, cs: seq<Child>, depth: int, eval: Evaluator)
    ensures var r := Select(side, false, RootScores(side, cs, depth, eval), Initial);
      && (r.best == None <==> NoneBeatsInitial(side, cs, depth, eval))
      && (r.best.Some? ==> exists k :: IsBestCandidate(side, cs, k, depth, eval)
                                       && EarlierAreWorse(side, cs, k, depth, eval) && r.best == Some(cs[k]))
  {
    StrictChoiceNone(side, cs, depth, eval);
    StrictChoiceSome(side, cs, depth, eval);
  }

  lemma StrictChoiceNone(side: Side, cs: seq<Child>, depth: int, eval: Evaluator)
    ensures Select(side, false, RootScores(side, cs, depth, eval), Initial).best == None
        <==> NoneBeatsInitial(side, cs, depth, eval)
  {
    var xs := RootScores(side, cs, depth, eval);
    SelectBest(side, false, xs, Initial);
    SelectStrictTakesFirst(side, xs, Initial);
  }

  lemma StrictChoiceSome(side: Side, cs: seq<Child>, depth: int, eval: Evaluator)
    ensures var r := Select(side, false, RootScores(side, cs, depth, eval), Initial);
      r.best.Some? ==> exists k :: IsBestCandidate(side, cs, k, depth, eval)
                                   && EarlierAreWorse(side, cs, k, depth, eval) && r.best == Some(cs[k])
  {
    var xs := RootScores(side, cs, depth, eval);
    SelectBest(side, false, xs, Initial);
    SelectStrictTakesFirst(side, xs, Initial);
  }

  /** Every DONE candidate after `k` is strictly worse. */
  ghost predicate LaterAreWorse(side: Side, cs: seq<Child>, k: int, depth: int, eval: Evaluator)
    requires 0 <= k < |cs|
  {
    forall j :: k < j < |cs| && cs[j].status == Done ==>
      Beats(side, RootValue(side, cs[k], depth, eval), RootValue(side, cs[j], depth, eval))
  }

  predicate NoneDone(cs: seq<Child>)
  {
    forall k :: 0 <= k < |cs| ==> cs[k].status != Done
  }

  /** Replacement on ties over the minimax values of `cs` (the minimax root
      loops) picks the LAST best candidate, and nothing exactly when no
      candidate is DONE. */
  lemma TiesChoice(side: Side, cs: seq<Child>, depth: int, eval: Evaluator)
    ensures var r := Select(side, true, RootScores(side, cs, depth, eval), Initial);
      && (r.best == None <==> NoneDone(cs))
      && (r.best.Some? ==> exists k :: IsBestCandidate(side, cs, k, depth, eval)
                                       && LaterAreWorse(side, cs, k, depth, eval) && r.best == Some(cs[k]))
  {
    TiesChoiceNone(side, cs, depth, eval);
    TiesChoiceSome(side, cs, depth, eval);
  }

  lemma TiesChoiceNone(side: Side, cs: seq<Child>, depth: int, eval: Evaluator)
    ensures Select(side, true, RootScores(side, cs, depth, eval), Initial).best == None <==> NoneDone(cs)
  {
    var xs := RootScores(side, cs, depth, eval);
    SelectBest(side, true, xs, Initial);
    SelectWithTiesTakesLast(side, xs, Initial);
  }

  lemma TiesChoiceSome(side: Side, cs: seq<Child>, depth: int, eval: Evaluator)
    ensures var r := Select(side, true, RootScores(side, cs, depth, eval), Initial);
      r.best.Some? ==> exists k :: IsBestCandidate(side, cs, k, depth, eval)
                                   && LaterAreWorse(side, cs, k, depth, eval) && r.best == Some(cs[k])
  {
    var xs := RootScores(side, cs, depth, eval);
    SelectBest(side, true, xs, Initial);
    SelectWithTiesTakesLast(side, xs, Initial);
  }

  /** `execute`: the best DONE root move, the LAST of several equally good
      ones, or null when no root move is DONE. */
  function Execute(p: Pos, depth: int, eval: Evaluator): (r: Option<Move>)
    ensures r == None <==> NoneDone(p.children)
    ensures r.Some? ==> exists k ::
      && IsBestCandidate(p.toMove, p.children, k, depth, eval)
      && LaterAreWorse(p.toMove, p.children, k, depth, eval)
      && p.children[k].move == r.value
  {
    TiesChoice(p.toMove, p.children, depth, eval);
    var pick := Search(p, depth, eval);
    if pick.best.Some? then Some(pick.best.value.move) else None
  }
}
