/** Move ordering. Every sorter of the engine is
    `Ordering.from(comparator).immutableSortedCopy(moves)`: a STABLE sort
    (Guava copies into an array and calls `Arrays.sort`, a merge sort) by a
    `ComparisonChain` of boolean "true first" and integer comparisons. Here
    each comparator is also given as a lexicographic integer key, the two are
    proved to order moves identically, and sorting is a stable insertion sort
    by key. */
module MoveOrdering {
  import opened Common
  import opened GameTree

  // ---------------------------------------------------------------------
  // Lexicographic order on integer keys

  /** Strict lexicographic order; a proper prefix is smaller. */
  predicate LexLess(a: seq<int>, b: seq<int>)
    decreases |a|
  {
    if |a| == 0 then |b| > 0
    else if |b| == 0 then false
    else a[0] < b[0] || (a[0] == b[0] && LexLess(a[1..], b[1..]))
  }

  lemma {:induction false} LexLessIrreflexive(a: seq<int>)
    ensures !LexLess(a, a)
    decreases |a|
  {
    if |a| > 0 { LexLessIrreflexive(a[1..]); }
  }

  lemma {:induction false} LexLessTransitive(a: seq<int>, b: seq<int>, c: seq<int>)
    requires LexLess(a, b) && LexLess(b, c)
    ensures LexLess(a, c)
    decreases |a|
  {
    if |a| > 0 && a[0] == b[0] && b[0] == c[0] {
      LexLessTransitive(a[1..], b[1..], c[1..]);
    }
  }

  lemma {:induction false} LexLessTotal(a: seq<int>, b: seq<int>)
    ensures LexLess(a, b) || a == b || LexLess(b, a)
    decreases |a|
  {
    if |a| > 0 && |b| > 0 && a[0] == b[0] {
      LexLessTotal(a[1..], b[1..]);
      if a[1..] == b[1..] {
        assert a == [a[0]] + a[1..] && b == [b[0]] + b[1..];
      }
    }
  }

  /** "Not after": the weak order the sorted output respects. */
  predicate LexLe(a: seq<int>, b: seq<int>) { !LexLess(b, a) }

  lemma LexLeTransitive(a: seq<int>, b: seq<int>, c: seq<int>)
    requires LexLe(a, b) && LexLe(b, c)
    ensures LexLe(a, c)
  {
    LexLessTotal(a, b);
    if LexLess(c, a) && LexLess(a, b) {
      LexLessTransitive(c, a, b);
    }
  }

  lemma {:induction false} LexLessAsymmetric(a: seq<int>, b: seq<int>)
    requires LexLess(a, b)
    ensures !LexLess(b, a)
    decreases |a|
  {
    if |a| > 0 && a[0] == b[0] {
      LexLessAsymmetric(a[1..], b[1..]);
    }
  }

  // ---------------------------------------------------------------------
  // Guava ComparisonChain, as the comparators are written

  /** `Ints.compare(x, y)`: the sign of `x - y`. */
  function IntCompare(x: int, y: int): int
  {
    if x < y then -1 else if x > y then 1 else 0
  }

  /** `compareTrueFirst(a, b)`: `true` sorts before `false`. */
  function TrueFirst(a: bool, b: bool): int
  {
    if a == b then 0 else if a then -1 else 1
  }

  /** `ComparisonChain.result()`: the first non-zero comparison, else 0. */
  function Chain(rs: seq<int>): int
  {
    if |rs| == 0 then 0 else if rs[0] != 0 then rs[0] else Chain(rs[1..])
  }

  /** Component-wise comparisons of two equal-length keys. */
  function Componentwise(a: seq<int>, b: seq<int>): (rs: seq<int>)
    requires |a| == |b|
    ensures |rs| == |a|
    ensures forall i :: 0 <= i < |a| ==> rs[i] == IntCompare(a[i], b[i])
  {
    if |a| == 0 then [] else [IntCompare(a[0], b[0])] + Componentwise(a[1..], b[1..])
  }

  /** A chain of integer comparisons is exactly lexicographic comparison. */
  lemma {:induction false} ChainIsLex(a: seq<int>, b: seq<int>)
    requires |a| == |b|
    ensures Chain(Componentwise(a, b)) < 0 <==> LexLess(a, b)
    ensures Chain(Componentwise(a, b)) > 0 <==> LexLess(b, a)
    ensures Chain(Componentwise(a, b)) == 0 <==> a == b
    decreases |a|
  {
    if |a| > 0 {
      var rs := Componentwise(a, b);
      assert rs[1..] == Componentwise(a[1..], b[1..]);
      ChainIsLex(a[1..], b[1..]);
      if a[0] == b[0] && a[1..] == b[1..] {
        assert a == [a[0]] + a[1..] && b == [b[0]] + b[1..];
      }
    }
  }

  /** `true` first is the integer order on 0 (true) and 1 (false). */
  function Rank(b: bool): int { if b then 0 else 1 }

  /** StockAlphaBeta STANDARD: castling first, then higher MVV-LVA first. */
  function StandardCompare(m1: Move, m2: Move): int
  {
    Chain([TrueFirst(m1.isCastling, m2.isCastling), IntCompare(m2.mvvlva, m1.mvvlva)])
  }

  /** StockAlphaBeta EXPENSIVE: king threats first, then castling, then
      higher MVV-LVA. */
  function ExpensiveCompare(m1: Move, m2: Move): int
  {
    Chain([TrueFirst(m1.kingThreat, m2.kingThreat), TrueFirst(m1.isCastling, m2.isCastling),
           IntCompare(m2.mvvlva, m1.mvvlva)])
  }

  /** AlphaBetaWithMoveOrdering SMART_SORT: moves whose board is immediately
      threatened first, then attacks, then castling, then the more valuable
      moved piece. */
  function SmartCompare(m1: Move, m2: Move): int
  {
    Chain([TrueFirst(m1.threatenedBoard, m2.threatenedBoard), TrueFirst(m1.isAttack, m2.isAttack),
           TrueFirst(m1.isCastling, m2.isCastling), IntCompare(m2.movedValue, m1.movedValue)])
  }

  function StandardKey(m: Move): seq<int> { [Rank(m.isCastling), -m.mvvlva] }
  function ExpensiveKey(m: Move): seq<int> { [Rank(m.kingThreat), Rank(m.isCastling), -m.mvvlva] }
  function SmartKey(m: Move): seq<int>
  {
    [Rank(m.threatenedBoard), Rank(m.isAttack), Rank(m.isCastling), -m.movedValue]
  }

  /** Each comparator orders two moves exactly as its key does: negative iff
      the first key is lexicographically smaller, zero iff the keys agree. */
  lemma StandardCompareIsKeyOrder(m1: Move, m2: Move)
    ensures StandardCompare(m1, m2) < 0 <==> LexLess(StandardKey(m1), StandardKey(m2))
    ensures StandardCompare(m1, m2) == 0 <==> StandardKey(m1) == StandardKey(m2)
  {
    assert Componentwise(StandardKey(m1), StandardKey(m2))
        == [TrueFirst(m1.isCastling, m2.isCastling), IntCompare(m2.mvvlva, m1.mvvlva)];
    ChainIsLex(StandardKey(m1), StandardKey(m2));
  }

  lemma ExpensiveCompareIsKeyOrder(m1: Move, m2: Move)
    ensures ExpensiveCompare(m1, m2) < 0 <==> LexLess(ExpensiveKey(m1), ExpensiveKey(m2))
    ensures ExpensiveCompare(m1, m2) == 0 <==> ExpensiveKey(m1) == ExpensiveKey(m2)
  {
    assert Componentwise(ExpensiveKey(m1), ExpensiveKey(m2))
        == [TrueFirst(m1.kingThreat, m2.kingThreat), TrueFirst(m1.isCastling, m2.isCastling),
            IntCompare(m2.mvvlva, m1.mvvlva)];
    ChainIsLex(ExpensiveKey(m1), ExpensiveKey(m2));
  }

  lemma SmartCompareIsKeyOrder(m1: Move, m2: Move)
    ensures SmartCompare(m1, m2) < 0 <==> LexLess(SmartKey(m1), SmartKey(m2))
    ensures SmartCompare(m1, m2) == 0 <==> SmartKey(m1) == SmartKey(m2)
  {
    assert Componentwise(SmartKey(m1), SmartKey(m2))
        == [TrueFirst(m1.threatenedBoard, m2.threatenedBoard), TrueFirst(m1.isAttack, m2.isAttack),
            TrueFirst(m1.isCastling, m2.isCastling), IntCompare(m2.movedValue, m1.movedValue)];
    ChainIsLex(SmartKey(m1), SmartKey(m2));
  }

  // ---------------------------------------------------------------------
  // Stable sorting by key

  /** Insert `x` in front of the first element whose key is not smaller. */
  function Insert<T>(x: T, t: seq<T>, key: T -> seq<int>): (r: seq<T>)
    ensures |r| == |t| + 1
    ensures multiset(r) == multiset(t) + multiset{x}
  {
    if |t| == 0 then [x]
    else if LexLess(key(t[0]), key(x)) then
      assert t == [t[0]] + t[1..];
      [t[0]] + Insert(x, t[1..], key)
    else [x] + t
  }

  /** `immutableSortedCopy`: a stable sort of `s` by `key`. */
  function SortBy<T>(s: seq<T>, key: T -> seq<int>): (r: seq<T>)
    ensures |r| == |s|
    ensures multiset(r) == multiset(s)
  {
    if |s| == 0 then []
    else
      assert s == [s[0]] + s[1..];
      Insert(s[0], SortBy(s[1..], key), key)
  }

  ghost predicate SortedBy<T>(s: seq<T>, key: T -> seq<int>)
  {
    forall i, j :: 0 <= i < j < |s| ==> LexLe(key(s[i]), key(s[j]))
  }

  lemma {:induction false} InsertSorted<T>(x: T, t: seq<T>, key: T -> seq<int>)
    requires SortedBy(t, key)
    ensures SortedBy(Insert(x, t, key), key)
    decreases |t|
  {
    if |t| > 0 {
      var r := Insert(x, t, key);
      if LexLess(key(t[0]), key(x)) {
        var r' := Insert(x, t[1..], key);
        InsertSorted(x, t[1..], key);
        assert r == [t[0]] + r';
        forall j | 0 < j < |r| ensures LexLe(key(t[0]), key(r[j])) {
          assert r[j] == r'[j - 1];
          assert r'[j - 1] in multiset(r');
          if r'[j - 1] == x {
            LexLessAsymmetric(key(t[0]), key(x));
          } else {
            assert r'[j - 1] in multiset(t[1..]);
            var k :| 0 <= k < |t[1..]| && t[1..][k] == r'[j - 1];
            assert t[k + 1] == r'[j - 1];
          }
        }
      } else {
        forall j | 0 <= j < |t| ensures LexLe(key(x), key(t[j])) {
          if j > 0 { LexLeTransitive(key(x), key(t[0]), key(t[j])); }
        }
      }
    }
  }

  /** The sorted copy is ordered by key. */
  lemma {:induction false} SortBySorted<T>(s: seq<T>, key: T -> seq<int>)
    ensures SortedBy(SortBy(s, key), key)
    decreases |s|
  {
    if |s| > 0 {
      SortBySorted(s[1..], key);
      InsertSorted(s[0], SortBy(s[1..], key), key);
    }
  }

  /** `p` selects the elements whose key is `k`. */
  ghost predicate IsKeyClass<T(!new)>(p: T -> bool, key: T -> seq<int>, k: seq<int>)
  {
    forall y :: p(y) <==> key(y) == k
  }

  lemma {:induction false} InsertKeepsKeyClass<T(!new)>(x: T, t: seq<T>, key: T -> seq<int>, p: T -> bool, k: seq<int>)
    requires IsKeyClass(p, key, k)
    ensures Filter(Insert(x, t, key), p) == (if p(x) then [x] else []) + Filter(t, p)
    decreases |t|
  {
    if |t| > 0 && LexLess(key(t[0]), key(x)) {
      InsertKeepsKeyClass(x, t[1..], key, p, k);
      if p(x) && p(t[0]) {
        assert key(t[0]) == k == key(x);
        LexLessIrreflexive(key(x));
      }
      FilterPastSmaller(x, t, Insert(x, t[1..], key), p);
    } else if |t| > 0 {
      assert Insert(x, t, key) == [x] + t;
      assert ([x] + t)[1..] == t;
    }
  }

  /** Passing an element of another class does not change the filtered
      order. */
  lemma FilterPastSmaller<T(!new)>(x: T, t: seq<T>, rest: seq<T>, p: T -> bool)
    requires |t| > 0
    requires p(x) ==> !p(t[0])
    requires Filter(rest, p) == (if p(x) then [x] else []) + Filter(t[1..], p)
    ensures Filter([t[0]] + rest, p) == (if p(x) then [x] else []) + Filter(t, p)
  {
    var a := [t[0]] + rest;
    assert a[0] == t[0] && a[1..] == rest;
    var head := if p(t[0]) then [t[0]] else [];
    assert Filter(a, p) == head + Filter(rest, p);
    assert Filter(t, p) == head + Filter(t[1..], p);
    if p(x) {
      assert head == [];
    }
  }

  /** Stability: elements with equal keys keep their relative order. */
  lemma {:induction false} SortByStable<T(!new)>(s: seq<T>, key: T -> seq<int>, p: T -> bool, k: seq<int>)
    requires IsKeyClass(p, key, k)
    ensures Filter(SortBy(s, key), p) == Filter(s, p)
    decreases |s|
  {
    if |s| > 0 {
      SortByStable(s[1..], key, p, k);
      InsertKeepsKeyClass(s[0], SortBy(s[1..], key), key, p, k);
    }
  }

  /** Sorting an already sorted sequence leaves it unchanged. */
  lemma {:induction false} SortByIdempotent<T>(s: seq<T>, key: T -> seq<int>)
    requires SortedBy(s, key)
    ensures SortBy(s, key) == s
    decreases |s|
  {
    if |s| > 0 {
      assert SortedBy(s[1..], key) by {
        forall i, j | 0 <= i < j < |s[1..]| ensures LexLe(key(s[1..][i]), key(s[1..][j])) {
          assert s[1..][i] == s[i + 1] && s[1..][j] == s[j + 1];
        }
      }
      SortByIdempotent(s[1..], key);
      if |s| > 1 {
        assert LexLe(key(s[0]), key(s[1]));
        assert s == [s[0]] + s[1..];
      }
    }
  }

  // ---------------------------------------------------------------------
  // The three sorters on a node's legal moves

  function StandardOrder(cs: seq<Child>): (r: seq<Child>)
    ensures multiset(r) == multiset(cs)
    ensures forall c :: c in r <==> c in cs
  {
    var r := SortBy(cs, (c: Child) => StandardKey(c.move));
    SameElements(r, cs);
    r
  }

  function ExpensiveOrder(cs: seq<Child>): (r: seq<Child>)
    ensures multiset(r) == multiset(cs)
    ensures forall c :: c in r <==> c in cs
  {
    var r := SortBy(cs, (c: Child) => ExpensiveKey(c.move));
    SameElements(r, cs);
    r
  }

  function SmartOrder(cs: seq<Child>): (r: seq<Child>)
    ensures multiset(r) == multiset(cs)
    ensures forall c :: c in r <==> c in cs
  {
    var r := SortBy(cs, (c: Child) => SmartKey(c.move));
    SameElements(r, cs);
    r
  }

  /** No move of a SMART-sorted list is placed after one the comparator
      puts behind it, and moves the comparator ties (those selected by `p`,
      all with the key `k`) keep their input order. */
  lemma SmartOrderRespectsComparator(cs: seq<Child>, p: Child -> bool, k: seq<int>)
    requires forall c :: p(c) <==> SmartKey(c.move) == k
    ensures var r := SmartOrder(cs);
      forall i, j :: 0 <= i < j < |r| ==> SmartCompare(r[i].move, r[j].move) <= 0
    ensures Filter(SmartOrder(cs), p) == Filter(cs, p)
  {
    var key := (c: Child) => SmartKey(c.move);
    SortBySorted(cs, key);
    var r := SmartOrder(cs);
    forall i, j | 0 <= i < j < |r| ensures SmartCompare(r[i].move, r[j].move) <= 0 {
      assert LexLe(key(r[i]), key(r[j]));
      LexLessTotal(key(r[i]), key(r[j]));
      SmartCompareIsKeyOrder(r[i].move, r[j].move);
    }
    SortByStable(cs, key, p, k);
  }
}
