/** The mChess `MiniMax` strategy with its root split across six workers
    (`MiniMaxThread`). The legal moves are dealt round-robin into six
    shards; each worker runs the plain minimax root loop (ties replace)
    over its shard; the six winners, in shard order, are searched once
    more as a small root, and that search's winner is played. Threads and
    polling are left out: each worker is its sequential result. */
module ParallelMiniMax {
  import opened Common
  import opened GameTree
  import opened RootSelection
  import MM = MiniMaxSearch

  const WORKERS: nat := 6

  /** The dealing loop: `numThread` runs 1..6 and wraps back to 1; the move
      goes to shard `numThread`. */
  function Deal<T>(ms: seq<T>, numThread: int, shards: seq<seq<T>>): (r: seq<seq<T>>)
    requires 1 <= numThread <= WORKERS && |shards| == WORKERS
    ensures |r| == WORKERS
  {
    if |ms| == 0 then shards
    else
      var shards' := shards[numThread - 1 := shards[numThread - 1] + [ms[0]]];
      var n := numThread + 1;
      Deal(ms[1..], if n == WORKERS + 1 then 1 else n, shards')
  }

  /** The six shards `t1Moves` .. `t6Moves`, indexed 0..5. */
  function Shards<T>(ms: seq<T>): (r: seq<seq<T>>)
    ensures |r| == WORKERS
  {
    Deal(ms, 1, [[], [], [], [], [], []])
  }

  /** How many of the indices 0..n-1 are congruent to `t` modulo 6. */
  function StrideLen(n: nat, t: nat): (k: nat)
    requires t < WORKERS
  {
    n / WORKERS + (if n % WORKERS > t then 1 else 0)
  }

  lemma StrideLenBound(n: nat, t: nat, i: nat)
    requires t < WORKERS && i < StrideLen(n, t)
    ensures t + WORKERS * i < n
  {
    assert n == WORKERS * (n / WORKERS) + n % WORKERS;
  }

  /** One more move adds one to exactly the shard its index belongs to. */
  lemma StrideLenStep(n: nat, t: nat)
    requires t < WORKERS
    ensures StrideLen(n + 1, t) == StrideLen(n, t) + (if n % WORKERS == t then 1 else 0)
  {
    var q, r := n / WORKERS, n % WORKERS;
    assert n == WORKERS * q + r;
    if r < WORKERS - 1 {
      assert n + 1 == WORKERS * q + (r + 1);
      assert (n + 1) / WORKERS == q && (n + 1) % WORKERS == r + 1;
    } else {
      assert n + 1 == WORKERS * (q + 1) + 0;
      assert (n + 1) / WORKERS == q + 1 && (n + 1) % WORKERS == 0;
    }
  }

  /** The reference partition: shard `t` is every sixth move from index `t`. */
  function Stride<T>(ms: seq<T>, t: nat): (s: seq<T>)
    requires t < WORKERS
    ensures |s| == StrideLen(|ms|, t)
    ensures forall i :: 0 <= i < |s| ==> t + WORKERS * i < |ms| && s[i] == ms[t + WORKERS * i]
  {
    seq(StrideLen(|ms|, t), i requires 0 <= i < StrideLen(|ms|, t) =>
      StrideLenBound(|ms|, t, i); ms[t + WORKERS * i])
  }

  /** Appending one move to the dealt prefix extends exactly the shard its
      index belongs to. */
  lemma StrideSnoc<T>(ms: seq<T>, x: T, t: nat)
    requires t < WORKERS
    ensures Stride(ms + [x], t) == if |ms| % WORKERS == t then Stride(ms, t) + [x] else Stride(ms, t)
  {
    var a := Stride(ms + [x], t);
    var b := if |ms| % WORKERS == t then Stride(ms, t) + [x] else Stride(ms, t);
    StrideLenStep(|ms|, t);
    assert |a| == |b|;
    forall i | 0 <= i < |a| ensures a[i] == b[i] {
      if i < |Stride(ms, t)| {
        assert (ms + [x])[t + WORKERS * i] == ms[t + WORKERS * i];
      }
    }
  }

  lemma {:induction false} DealFrom<T>(ms: seq<T>, j: nat, shards: seq<seq<T>>)
    requires j <= |ms| && |shards| == WORKERS
    requires forall t :: 0 <= t < WORKERS ==> shards[t] == Stride(ms[..j], t)
    ensures Deal(ms[j..], j % WORKERS + 1, shards) == seq(WORKERS, t requires 0 <= t < WORKERS => Stride(ms, t))
    decreases |ms| - j
  {
    var want := seq(WORKERS, t requires 0 <= t < WORKERS => Stride(ms, t));
    if j == |ms| {
      assert ms[..j] == ms;
      assert shards == want;
    } else {
      var n := j % WORKERS + 1;
      var shards' := shards[n - 1 := shards[n - 1] + [ms[j]]];
      assert ms[j..][0] == ms[j] && ms[j..][1..] == ms[j + 1..];
      assert ms[..j + 1] == ms[..j] + [ms[j]];
      forall t | 0 <= t < WORKERS ensures shards'[t] == Stride(ms[..j + 1], t) {
        StrideSnoc(ms[..j], ms[j], t);
      }
      DealFrom(ms, j + 1, shards');
      assert (if n + 1 == WORKERS + 1 then 1 else n + 1) == (j + 1) % WORKERS + 1;
    }
  }

  /** The dealing loop builds exactly the reference partition. */
  lemma ShardsAreStrides<T>(ms: seq<T>)
    ensures forall t :: 0 <= t < WORKERS ==> Shards(ms)[t] == Stride(ms, t)
  {
    assert ms[0..] == ms;
    forall t | 0 <= t < WORKERS ensures Stride(ms[..0], t) == [] { }
    DealFrom(ms, 0, [[], [], [], [], [], []]);
  }

  /** The move at index j lands in shard j mod 6, at position j / 6. */
  lemma IndexInShard<T>(ms: seq<T>, j: nat)
    requires j < |ms|
    ensures j / WORKERS < |Shards(ms)[j % WORKERS]| && Shards(ms)[j % WORKERS][j / WORKERS] == ms[j]
  {
    ShardsAreStrides(ms);
    var t := j % WORKERS;
    var i := j / WORKERS;
    assert j == t + WORKERS * i;
    assert i < StrideLen(|ms|, t);
  }

  /** Entry i of shard t is the move at index t + 6i. */
  lemma ShardEntry<T>(ms: seq<T>, t: nat, i: nat)
    requires t < WORKERS && i < |Shards(ms)[t]|
    ensures t + WORKERS * i < |ms| && Shards(ms)[t][i] == ms[t + WORKERS * i]
  {
    ShardsAreStrides(ms);
  }

  /** Every move is in the shard of its index, and every shard entry is a
      move from such an index, in increasing order: the shards are disjoint,
      exhaustive and order-preserving. */
  lemma ShardOfIndex<T>(ms: seq<T>)
    ensures forall j :: 0 <= j < |ms| ==>
      j / WORKERS < |Shards(ms)[j % WORKERS]| && Shards(ms)[j % WORKERS][j / WORKERS] == ms[j]
    ensures forall t, i :: 0 <= t < WORKERS && 0 <= i < |Shards(ms)[t]| ==>
      t + WORKERS * i < |ms| && Shards(ms)[t][i] == ms[t + WORKERS * i]
  {
    ShardsAreStrides(ms);
    forall j | 0 <= j < |ms|
      ensures j / WORKERS < |Shards(ms)[j % WORKERS]| && Shards(ms)[j % WORKERS][j / WORKERS] == ms[j]
    {
      IndexInShard(ms, j);
    }
  }

  /** The shards are balanced: their sizes differ by at most one, and they
      add up to the number of legal moves. */
  lemma {:induction false} ShardSizes<T>(ms: seq<T>)
    ensures forall a, b :: 0 <= a < WORKERS && 0 <= b < WORKERS ==> |Shards(ms)[a]| <= |Shards(ms)[b]| + 1
    ensures |Shards(ms)[0]| + |Shards(ms)[1]| + |Shards(ms)[2]| + |Shards(ms)[3]| + |Shards(ms)[4]| + |Shards(ms)[5]| == |ms|
  {
    ShardsAreStrides(ms);
    StrideLenSum(|ms|);
    forall a, b | 0 <= a < WORKERS && 0 <= b < WORKERS
      ensures StrideLen(|ms|, a) <= StrideLen(|ms|, b) + 1
    {
    }
  }

  lemma {:induction false} StrideLenSum(n: nat)
    ensures StrideLen(n, 0) + StrideLen(n, 1) + StrideLen(n, 2) + StrideLen(n, 3) + StrideLen(n, 4) + StrideLen(n, 5) == n
  {
    if n > 0 {
      StrideLenSum(n - 1);
      StrideLenStep(n - 1, 0);
      StrideLenStep(n - 1, 1);
      StrideLenStep(n - 1, 2);
      StrideLenStep(n - 1, 3);
      StrideLenStep(n - 1, 4);
      StrideLenStep(n - 1, 5);
    }
  }

  /** `MiniMaxThread.run`: the plain minimax root loop over the worker's
      moves; `None` is the null move. */
  function Worker(side: Side, moves: seq<Child>, depth: int, eval: Evaluator): (r: Option<Child>)
    ensures r == None <==> MM.NoneDone(moves)
    ensures r.Some? ==> exists k ::
      && MM.IsBestCandidate(side, moves, k, depth, eval)
      && MM.LaterAreWorse(side, moves, k, depth, eval)
      && r.value == moves[k]
  {
    MM.TiesChoice(side, moves, depth, eval);
    Select(side, true, MM.RootScores(side, moves, depth, eval), Initial).best
  }

  /** The null move. A null move is never among a position's legal moves, so
      `makeMove` answers it with an illegal-move transition that stays on the
      same board. Its piece, square and notation are never read. */
  const NullMove: Move := Move(-1, false, false, 0, 0, false, false, Pawn, 0, "")

  function NullChild(p: Pos): (c: Child)
    ensures c.status != Done
  {
    Child(NullMove, IllegalMove, p)
  }

  /** `threadMoves`: the six winners in shard order, with a worker that found
      nothing contributing the null move. */
  function Finalists(p: Pos, depth: int, eval: Evaluator): (fs: seq<Child>)
    ensures |fs| == WORKERS
  {
    seq(WORKERS, t requires 0 <= t < WORKERS => Finalist(p, depth, eval, t))
  }

  /** The entry worker `t` contributes to `threadMoves`. */
  function Finalist(p: Pos, depth: int, eval: Evaluator, t: nat): Child
    requires t < WORKERS
  {
    match Worker(p.toMove, Shards(p.children)[t], depth, eval)
    case Some(c) => c
    case None => NullChild(p)
  }

  /** `execute`: the final worker's pick over the finalists. */
  function Execute(p: Pos, depth: int, eval: Evaluator): (r: Option<Move>)
    ensures r == None <==> MM.NoneDone(p.children)
    ensures r.Some? ==> exists k :: MM.IsBestCandidate(p.toMove, p.children, k, depth, eval) && p.children[k].move == r.value
  {
    ShardedSearchIsGlobalBest(p, depth, eval);
    match Worker(p.toMove, Finalists(p, depth, eval), depth, eval)
    case Some(c) => Some(c.move)
    case None => None
  }

  /** A DONE finalist is its worker's winner, hence a legal move. */
  lemma FinalistIsLegal(p: Pos, depth: int, eval: Evaluator, t: nat)
    requires t < WORKERS
    ensures Finalists(p, depth, eval)[t].status == Done ==>
      exists j :: 0 <= j < |p.children| && p.children[j] == Finalists(p, depth, eval)[t]
  {
    if Finalists(p, depth, eval)[t].status == Done {
      var sh := Shards(p.children)[t];
      var w := Worker(p.toMove, sh, depth, eval);
      assert Finalists(p, depth, eval)[t] == Finalist(p, depth, eval, t);
      var k :| MM.IsBestCandidate(p.toMove, sh, k, depth, eval) && w.value == sh[k];
      ShardEntry(p.children, t, k);
    }
  }

  /** A DONE legal move is matched or beaten by the finalist of its shard. */
  lemma FinalistCovers(p: Pos, depth: int, eval: Evaluator, j: nat)
    requires j < |p.children| && p.children[j].status == Done
    ensures var f := Finalists(p, depth, eval)[j % WORKERS];
      f.status == Done &&
      !Beats(p.toMove, MM.RootValue(p.toMove, p.children[j], depth, eval), MM.RootValue(p.toMove, f, depth, eval))
  {
    var t := j % WORKERS;
    var sh := Shards(p.children)[t];
    IndexInShard(p.children, j);
    assert sh[j / WORKERS] == p.children[j];
    assert !MM.NoneDone(sh);
    assert Finalists(p, depth, eval)[t] == Finalist(p, depth, eval, t);
    var k :| MM.IsBestCandidate(p.toMove, sh, k, depth, eval) && Worker(p.toMove, sh, depth, eval).value == sh[k];
    assert Finalist(p, depth, eval, t) == sh[k];
  }

  /** No DONE legal move leaves every worker empty-handed, and conversely. */
  lemma NoFinalistIffNoneDone(p: Pos, depth: int, eval: Evaluator)
    ensures MM.NoneDone(Finalists(p, depth, eval)) <==> MM.NoneDone(p.children)
  {
    var fs := Finalists(p, depth, eval);
    var cs := p.children;
    if MM.NoneDone(cs) {
      forall t | 0 <= t < WORKERS ensures fs[t].status != Done {
        if fs[t].status == Done {
          FinalistIsLegal(p, depth, eval, t);
        }
      }
    }
    if MM.NoneDone(fs) {
      forall j | 0 <= j < |cs| ensures cs[j].status != Done {
        if cs[j].status == Done {
          FinalistCovers(p, depth, eval, j);
        }
      }
    }
  }

  /** A DONE finalist that no other finalist beats is beaten by no DONE
      legal move. */
  lemma BestFinalistIsGlobalBest(p: Pos, depth: int, eval: Evaluator, k: int)
    requires MM.IsBestCandidate(p.toMove, Finalists(p, depth, eval), k, depth, eval)
    ensures exists j :: MM.IsBestCandidate(p.toMove, p.children, j, depth, eval) && p.children[j] == Finalists(p, depth, eval)[k]
  {
    var side := p.toMove;
    var cs := p.children;
    var fs := Finalists(p, depth, eval);
    FinalistIsLegal(p, depth, eval, k);
    var j0 :| 0 <= j0 < |cs| && cs[j0] == fs[k];
    forall j | 0 <= j < |cs| && cs[j].status == Done
      ensures !Beats(side, MM.RootValue(side, cs[j], depth, eval), MM.RootValue(side, cs[j0], depth, eval))
    {
      FinalistCovers(p, depth, eval, j);
      assert fs[j % WORKERS].status == Done;
    }
    assert MM.IsBestCandidate(side, cs, j0, depth, eval);
  }

  /** Splitting the root loses nothing: the final pick is null exactly when
      no legal move is DONE, and otherwise it is a DONE legal move whose
      minimax value no other DONE legal move beats. */
  lemma ShardedSearchIsGlobalBest(p: Pos, depth: int, eval: Evaluator)
    ensures var r := Worker(p.toMove, Finalists(p, depth, eval), depth, eval);
      && (r == None <==> MM.NoneDone(p.children))
      && (r.Some? ==> exists k :: MM.IsBestCandidate(p.toMove, p.children, k, depth, eval) && p.children[k] == r.value)
  {
    var fs := Finalists(p, depth, eval);
    var r := Worker(p.toMove, fs, depth, eval);
    NoFinalistIffNoneDone(p, depth, eval);
    if r.Some? {
      var k :| MM.IsBestCandidate(p.toMove, fs, k, depth, eval) && r.value == fs[k];
      BestFinalistIsGlobalBest(p, depth, eval, k);
    }
  }

  /** The split search and the single-threaded minimax root agree on the
      value of the move they play, though ties may be broken differently. */
  lemma AgreesWithSequential(p: Pos, depth: int, eval: Evaluator)
    requires !MM.NoneDone(p.children)
    ensures var a := Worker(p.toMove, Finalists(p, depth, eval), depth, eval);
            var b := Worker(p.toMove, p.children, depth, eval);
      a.Some? && b.Some? &&
      MM.RootValue(p.toMove, a.value, depth, eval) == MM.RootValue(p.toMove, b.value, depth, eval)
  {
    var side := p.toMove;
    var cs := p.children;
    ShardedSearchIsGlobalBest(p, depth, eval);
    var a := Worker(side, Finalists(p, depth, eval), depth, eval);
    var b := Worker(side, cs, depth, eval);
    var i :| MM.IsBestCandidate(side, cs, i, depth, eval) && cs[i] == a.value;
    var k :| MM.IsBestCandidate(side, cs, k, depth, eval) && b.value == cs[k];
    assert !Beats(side, MM.RootValue(side, cs[i], depth, eval), MM.RootValue(side, cs[k], depth, eval));
    assert !Beats(side, MM.RootValue(side, cs[k], depth, eval), MM.RootValue(side, cs[i], depth, eval));
  }

  /** The counted `min` of mChess `MiniMax`: like the worker's `min`, but a
      depth-0 leaf also adds one to `boardsEvaluated` (an end-game leaf does
      not). Returns the value and the counter. The Java method is never
      called (the workers use their own `min`), and as written it would
      throw a `NullPointerException` at its first depth-0 leaf:
      `freqTable[freqTableIndex]` is never filled, because the loop that
      filled it is commented out. This is the count it was meant to keep. */
  function CountedMin(p: Pos, depth: int, n: int, eval: Evaluator): (r: (Int32, int))
    ensures depth == 0 ==> r == (eval(p, depth), n + 1)
    ensures depth != 0 && IsEndGame(p) ==> r == (eval(p, depth), n)
    decreases p, 1
  {
    if depth == 0 then (eval(p, depth), n + 1)
    else if IsEndGame(p) then (eval(p, depth), n)
    else CountedMinLoop(p, 0, depth, MAX_INT, n, eval)
  }

  function CountedMinLoop(p: Pos, i: nat, depth: int, lowest: Int32, n: int, eval: Evaluator): (Int32, int)
    requires i <= |p.children|
    decreases p, 0, |p.children| - i
  {
    if i == |p.children| then (lowest, n)
    else
      var c := p.children[i];
      if c.status == Done then
        var (v, n') := CountedMax(c.next, depth - 1, n, eval);
        CountedMinLoop(p, i + 1, depth, if v <= lowest then v else lowest, n', eval)
      else CountedMinLoop(p, i + 1, depth, lowest, n, eval)
  }

  /** The counted `max`, the mirror image of `CountedMin`; the Java method
      is never called either, and would throw in the same way. */
  function CountedMax(p: Pos, depth: int, n: int, eval: Evaluator): (r: (Int32, int))
    ensures depth == 0 ==> r == (eval(p, depth), n + 1)
    ensures depth != 0 && IsEndGame(p) ==> r == (eval(p, depth), n)
    decreases p, 1
  {
    if depth == 0 then (eval(p, depth), n + 1)
    else if IsEndGame(p) then (eval(p, depth), n)
    else CountedMaxLoop(p, 0, depth, MIN_INT, n, eval)
  }

  function CountedMaxLoop(p: Pos, i: nat, depth: int, highest: Int32, n: int, eval: Evaluator): (Int32, int)
    requires i <= |p.children|
    decreases p, 0, |p.children| - i
  {
    if i == |p.children| then (highest, n)
    else
      var c := p.children[i];
      if c.status == Done then
        var (v, n') := CountedMin(c.next, depth - 1, n, eval);
        CountedMaxLoop(p, i + 1, depth, if v >= highest then v else highest, n', eval)
      else CountedMaxLoop(p, i + 1, depth, highest, n, eval)
  }

  /** Counting leaves does not steer the search: the counted `min`/`max`
      return the plain minimax value, and the counter only grows. */
  lemma {:induction false} CountedIsMiniMax(p: Pos, depth: int, n: int, eval: Evaluator)
    ensures CountedMin(p, depth, n, eval).0 == MM.Min(p, depth, eval) && CountedMin(p, depth, n, eval).1 >= n
    ensures CountedMax(p, depth, n, eval).0 == MM.Max(p, depth, eval) && CountedMax(p, depth, n, eval).1 >= n
    decreases p, 1
  {
    if !IsLeaf(p, depth) {
      CountedLoopsAreMiniMax(p, 0, depth, MAX_INT, MIN_INT, n, eval);
    }
  }

  lemma {:induction false} CountedLoopsAreMiniMax(p: Pos, i: nat, depth: int, lowest: Int32, highest: Int32, n: int, eval: Evaluator)
    requires i <= |p.children|
    ensures CountedMinLoop(p, i, depth, lowest, n, eval).0 == MM.MinLoop(p, i, depth, lowest, eval)
    ensures CountedMinLoop(p, i, depth, lowest, n, eval).1 >= n
    ensures CountedMaxLoop(p, i, depth, highest, n, eval).0 == MM.MaxLoop(p, i, depth, highest, eval)
    ensures CountedMaxLoop(p, i, depth, highest, n, eval).1 >= n
    decreases p, 0, |p.children| - i
  {
    if i < |p.children| {
      var c := p.children[i];
      if c.status == Done {
        CountedIsMiniMax(c.next, depth - 1, n, eval);
        var (v, n1) := CountedMax(c.next, depth - 1, n, eval);
        var (w, n2) := CountedMin(c.next, depth - 1, n, eval);
        CountedLoopsAreMiniMax(p, i + 1, depth, if v <= lowest then v else lowest, if w >= highest then w else highest, n1, eval);
        CountedLoopsAreMiniMax(p, i + 1, depth, if v <= lowest then v else lowest, if w >= highest then w else highest, n2, eval);
      } else {
        CountedLoopsAreMiniMax(p, i + 1, depth, lowest, highest, n, eval);
      }
    }
  }
}
