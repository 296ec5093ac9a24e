/** The root update rule shared by every `execute` loop: keep a best move
    and the highest (white) or lowest (black) value seen so far, and replace
    them when a candidate scores better. MiniMax and MiniMaxThread replace on
    ties (`>=` / `<=`); the alpha-beta strategies do not (`>` / `<`). */
module RootSelection {
  import opened Common
  import opened GameTree

  /** Root loop state: `bestMove`, `highestSeenValue`, `lowestSeenValue`. */
  datatype Pick = Pick(best: Option<Child>, highest: Int32, lowest: Int32)

  /** The state before the first candidate: null move, MIN_VALUE, MAX_VALUE. */
  const Initial: Pick := Pick(None, MIN_INT, MAX_INT)

  /** A root candidate with the value its search returned; `None` when its
      transition was not DONE, so it was never searched. */
  datatype Scored = Scored(child: Child, score: Option<Int32>)

  /** The extreme the side to move is tracking. */
  function Extreme(side: Side, p: Pick): Int32
  {
    if side == White then p.highest else p.lowest
  }

  /** `v` is strictly better than `w` for `side`. */
  predicate Beats(side: Side, v: int, w: int)
  {
    if side == White then v > w else v < w
  }

  /** Does a candidate of value `v` replace the current best? */
  predicate Replaces(side: Side, ties: bool, v: int, w: int)
  {
    Beats(side, v, w) || (ties && v == w)
  }

  /** One iteration of the root loop. */
  function Update(side: Side, ties: bool, acc: Pick, s: Scored): (r: Pick)
    ensures side == White ==> r.lowest == acc.lowest
    ensures side == Black ==> r.highest == acc.highest
  {
    match s.score
    case None => acc
    case Some(v) =>
      if !Replaces(side, ties, v, Extreme(side, acc)) then acc
      else if side == White then Pick(Some(s.child), v, acc.lowest)
      else Pick(Some(s.child), acc.highest, v)
  }

  /** The whole root loop over the candidates, in order. */
  function Select(side: Side, ties: bool, xs: seq<Scored>, acc: Pick): Pick
  {
    if |xs| == 0 then acc else Select(side, ties, xs[1..], Update(side, ties, acc, xs[0]))
  }

  /** `h` is the best of `start` and every score in `xs`, for `side`. */
  ghost predicate IsBestOf(side: Side, h: int, start: int, xs: seq<Scored>)
  {
    && (h == start || exists k :: 0 <= k < |xs| && xs[k].score == Some(h))
    && !Beats(side, start, h)
    && forall k :: 0 <= k < |xs| && xs[k].score.Some? ==> !Beats(side, xs[k].score.value, h)
  }

  /** The extreme after the loop is the best score seen, the other extreme is
      untouched, and the best move is either the one carried in or a scored
      candidate whose score is that extreme. */
  lemma {:induction false} SelectBest(side: Side, ties: bool, xs: seq<Scored>, acc: Pick)
    ensures IsBestOf(side, Extreme(side, Select(side, ties, xs, acc)), Extreme(side, acc), xs)
    ensures side == White ==> Select(side, ties, xs, acc).lowest == acc.lowest
    ensures side == Black ==> Select(side, ties, xs, acc).highest == acc.highest
    ensures var r := Select(side, ties, xs, acc);
      r == acc ||
      exists k :: 0 <= k < |xs| && r.best == Some(xs[k].child) && xs[k].score == Some(Extreme(side, r))
  {
    if |xs| > 0 {
      var acc' := Update(side, ties, acc, xs[0]);
      SelectBest(side, ties, xs[1..], acc');
      var r := Select(side, ties, xs, acc);
      assert r == Select(side, ties, xs[1..], acc');
      var h := Extreme(side, r);
      forall k | 0 <= k < |xs| && xs[k].score.Some?
        ensures !Beats(side, xs[k].score.value, h)
      {
        if k > 0 { assert xs[1..][k - 1] == xs[k]; }
      }
      if h != Extreme(side, acc) && h != Extreme(side, acc') {
        var k :| 0 <= k < |xs[1..]| && xs[1..][k].score == Some(h);
        assert xs[k + 1].score == Some(h);
      }
      if r != acc && r != acc' {
        var k :| 0 <= k < |xs[1..]| && r.best == Some(xs[1..][k].child) && xs[1..][k].score == Some(h);
        assert xs[k + 1] == xs[1..][k];
      }
    }
  }

  /** With ties replacing, the chosen candidate is the LAST one whose score
      is the extreme: every later scored candidate is strictly worse. */
  lemma {:induction false} SelectWithTiesTakesLast(side: Side, xs: seq<Scored>, acc: Pick)
    ensures var r := Select(side, true, xs, acc);
      || (r == acc && forall j :: 0 <= j < |xs| && xs[j].score.Some? ==> Beats(side, Extreme(side, acc), xs[j].score.value))
      || exists k :: 0 <= k < |xs| && r.best == Some(xs[k].child) && xs[k].score == Some(Extreme(side, r))
           && forall j :: k < j < |xs| && xs[j].score.Some? ==> Beats(side, Extreme(side, r), xs[j].score.value)
  {
    if |xs| > 0 {
      var acc' := Update(side, true, acc, xs[0]);
      SelectWithTiesTakesLast(side, xs[1..], acc');
      var r := Select(side, true, xs, acc);
      assert r == Select(side, true, xs[1..], acc');
      var tail := xs[1..];
      var replaced := xs[0].score.Some? && Replaces(side, true, xs[0].score.value, Extreme(side, acc));
      if r == acc' && forall j :: 0 <= j < |tail| && tail[j].score.Some? ==> Beats(side, Extreme(side, acc'), tail[j].score.value) {
        if !replaced {
          forall j | 0 <= j < |xs| && xs[j].score.Some?
            ensures Beats(side, Extreme(side, acc), xs[j].score.value)
          {
            if j > 0 { assert tail[j - 1] == xs[j]; }
          }
        } else {
          forall j | 0 < j < |xs| && xs[j].score.Some?
            ensures Beats(side, Extreme(side, r), xs[j].score.value)
          {
            assert tail[j - 1] == xs[j];
          }
        }
      } else {
        var k :| 0 <= k < |tail| && r.best == Some(tail[k].child) && tail[k].score == Some(Extreme(side, r))
          && forall j :: k < j < |tail| && tail[j].score.Some? ==> Beats(side, Extreme(side, r), tail[j].score.value);
        assert xs[k + 1] == tail[k];
        forall j | k + 1 < j < |xs| && xs[j].score.Some?
          ensures Beats(side, Extreme(side, r), xs[j].score.value)
        {
          assert tail[j - 1] == xs[j];
        }
      }
    }
  }

  /** With strict replacement, the chosen candidate is the FIRST one whose
      score is the extreme: every earlier scored candidate is strictly worse. */
  lemma {:induction false} SelectStrictTakesFirst(side: Side, xs: seq<Scored>, acc: Pick)
    ensures var r := Select(side, false, xs, acc);
      || (r == acc && forall j :: 0 <= j < |xs| && xs[j].score.Some? ==> !Beats(side, xs[j].score.value, Extreme(side, acc)))
      || exists k :: 0 <= k < |xs| && r.best == Some(xs[k].child) && xs[k].score == Some(Extreme(side, r))
           && Beats(side, Extreme(side, r), Extreme(side, acc))
           && forall j :: 0 <= j < k && xs[j].score.Some? ==> Beats(side, Extreme(side, r), xs[j].score.value)
  {
    if |xs| > 0 {
      var acc' := Update(side, false, acc, xs[0]);
      SelectStrictTakesFirst(side, xs[1..], acc');
      var r := Select(side, false, xs, acc);
      assert r == Select(side, false, xs[1..], acc');
      var tail := xs[1..];
      var replaced := xs[0].score.Some? && Replaces(side, false, xs[0].score.value, Extreme(side, acc));
      if r == acc' && forall j :: 0 <= j < |tail| && tail[j].score.Some? ==> !Beats(side, tail[j].score.value, Extreme(side, acc')) {
        if !replaced {
          forall j | 0 <= j < |xs| && xs[j].score.Some?
            ensures !Beats(side, xs[j].score.value, Extreme(side, acc))
          {
            if j > 0 { assert tail[j - 1] == xs[j]; }
          }
        }
      } else {
        var k :| 0 <= k < |tail| && r.best == Some(tail[k].child) && tail[k].score == Some(Extreme(side, r))
          && Beats(side, Extreme(side, r), Extreme(side, acc'))
          && forall j :: 0 <= j < k && tail[j].score.Some? ==> Beats(side, Extreme(side, r), tail[j].score.value);
        assert xs[k + 1] == tail[k];
        forall j | 0 <= j < k + 1 && xs[j].score.Some?
          ensures Beats(side, Extreme(side, r), xs[j].score.value)
        {
          if j > 0 { assert tail[j - 1] == xs[j]; }
        }
      }
    }
  }
}
