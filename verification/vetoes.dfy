/** The look-ahead heuristics that veto root candidates in the mChess
    alpha-beta strategies (`checkKnightFork`, `futurePawnAttack`,
    `checkQueenEscapes`; the two strategies carry identical copies), and the
    root filter that applies them.

    Each heuristic replays a few plies with `makeMove` and inspects pieces
    and squares. The model receives those replies as data: for every ply the
    probe visits, the facts the code reads from it (which piece moved, what
    it captured, where it landed, piece values, transition status). */
module Vetoes {
  import opened Common
  import opened GameTree

  /** `flag = true` inside a loop over `s`: the flag ends up set iff some
      element triggers it. */
  predicate AnyOf<T>(s: seq<T>, g: T -> bool)
  {
    |s| > 0 && (g(s[0]) || AnyOf(s[1..], g))
  }

  lemma {:induction false} AnyOfIsExists<T>(s: seq<T>, g: T -> bool)
    ensures AnyOf(s, g) <==> exists i :: 0 <= i < |s| && g(s[i])
  {
    if |s| > 0 {
      AnyOfIsExists(s[1..], g);
      if !g(s[0]) && exists i :: 0 <= i < |s| && g(s[i]) {
        var i :| 0 <= i < |s| && g(s[i]);
        assert s[1..][i - 1] == s[i];
      }
      if exists i :: 0 <= i < |s[1..]| && g(s[1..][i]) {
        var i :| 0 <= i < |s[1..]| && g(s[1..][i]);
        assert s[i + 1] == s[1..][i];
      }
    }
  }

  // ---------------------------------------------------------------------
  // checkKnightFork

  /** An enemy move after one of my answers to the knight's check. It is
      read twice: as `oppAny` (does the forking knight then capture a queen,
      bishop or rook?) and, when my answer landed on the knight's square, as
      `atkBack` (does it recapture there?). `myRetakes` are the destination
      squares of my legal moves on the board the code builds next. */
  datatype EnemyAnswer = EnemyAnswer(
    byForkingKnight: bool,
    captured: Option<Piece>,
    destination: int,
    movedValue: int,
    myRetakes: seq<int>)

  /** One of my legal moves on the board where the knight gives check. */
  datatype CheckReply = CheckReply(status: Status, destination: int, movedValue: int, answers: seq<EnemyAnswer>)

  /** One legal move of an enemy knight: the square it lands on, whether it
      leaves me in check, and my replies. */
  datatype KnightJump = KnightJump(square: int, givesCheck: bool, replies: seq<CheckReply>)

  /** One of the enemy's active pieces; only knights are explored. */
  datatype EnemyPiece = EnemyPiece(kind: Piece, jumps: seq<KnightJump>)

  predicate IsQueenBishopOrRook(p: Option<Piece>)
  {
    p == Some(Queen) || p == Some(Bishop) || p == Some(Rook)
  }

  /** The four flags of `checkKnightFork`, each set by its nested loops. */
  datatype ForkFlags = ForkFlags(firstYes: bool, secondYes: bool, firstNo: bool, secondNo: bool)

  /** Scan the replies to one checking knight jump: `firstNo` when the
      knight can then take a queen, bishop or rook; `firstYes` when I capture
      on its square; `secondNo` when the enemy recaptures there; `secondYes`
      when I can retake again and my capturing piece is worth no more than
      the recapturing one. Only DONE replies count. */
  function ReplyFlags(j: KnightJump, r: CheckReply): ForkFlags
  {
    var taken := r.destination == j.square;
    ForkFlags(
      firstYes := r.status == Done && taken,
      secondYes := r.status == Done && taken &&
        AnyOf(r.answers, (e: EnemyAnswer) => e.destination == j.square &&
          AnyOf(e.myRetakes, (d: int) => d == j.square && r.movedValue <= e.movedValue)),
      firstNo := r.status == Done &&
        AnyOf(r.answers, (e: EnemyAnswer) => e.byForkingKnight && IsQueenBishopOrRook(e.captured)),
      secondNo := r.status == Done && taken &&
        AnyOf(r.answers, (e: EnemyAnswer) => e.destination == j.square))
  }

  /** Names the four flags, so one scan serves them all. */
  datatype Flag = FirstYes | SecondYes | FirstNo | SecondNo

  function Get(f: ForkFlags, which: Flag): bool
  {
    match which
    case FirstYes => f.firstYes
    case SecondYes => f.secondYes
    case FirstNo => f.firstNo
    case SecondNo => f.secondNo
  }

  /** The nested loops of `checkKnightFork` as they set one flag: over the
      enemy's pieces, knights only; over each knight's legal moves, those
      that leave me in check only; over my replies. */
  function ScanFlag(ps: seq<EnemyPiece>, which: Flag): bool
  {
    AnyOf(ps, OnPiece(which))
  }

  function OnPiece(which: Flag): EnemyPiece -> bool
  {
    (pc: EnemyPiece) => pc.kind == Knight && AnyOf(pc.jumps, OnJump(which))
  }

  function OnJump(which: Flag): KnightJump -> bool
  {
    (j: KnightJump) => j.givesCheck && AnyOf(j.replies, OnReply(j, which))
  }

  function OnReply(j: KnightJump, which: Flag): CheckReply -> bool
  {
    (r: CheckReply) => Get(ReplyFlags(j, r), which)
  }

  function ForkScan(ps: seq<EnemyPiece>): ForkFlags
  {
    ForkFlags(ScanFlag(ps, FirstYes), ScanFlag(ps, SecondYes), ScanFlag(ps, FirstNo), ScanFlag(ps, SecondNo))
  }

  /** The four `if`s at the end: later flags override earlier ones. */
  function ResolveFork(f: ForkFlags): (veto: bool)
    ensures veto <==> !f.secondYes && (f.secondNo || (!f.firstYes && f.firstNo))
  {
    var m0 := false;
    var m1 := if f.firstNo then true else m0;
    var m2 := if f.firstYes then false else m1;
    var m3 := if f.secondNo then true else m2;
    if f.secondYes then false else m3
  }

  /** `checkKnightFork`: true when the candidate should be avoided. */
  function KnightForkVeto(ps: seq<EnemyPiece>): bool
  {
    ResolveFork(ForkScan(ps))
  }

  /** Some knight of `ps` has a checking jump with a reply that sets `which`. */
  ghost predicate SomeReplySets(ps: seq<EnemyPiece>, which: Flag)
  {
    exists a, b, c ::
      && 0 <= a < |ps| && ps[a].kind == Knight
      && 0 <= b < |ps[a].jumps| && ps[a].jumps[b].givesCheck
      && 0 <= c < |ps[a].jumps[b].replies|
      && Get(ReplyFlags(ps[a].jumps[b], ps[a].jumps[b].replies[c]), which)
  }

  /** A flag ends up set exactly when one reply, to one checking jump of
      one knight, sets it. */
  lemma ScanFlagIsExists(ps: seq<EnemyPiece>, which: Flag)
    ensures ScanFlag(ps, which) <==> SomeReplySets(ps, which)
  {
    AnyOfIsExists(ps, OnPiece(which));
    forall a | 0 <= a < |ps|
      ensures OnPiece(which)(ps[a]) <==> ps[a].kind == Knight && exists b, c ::
        && 0 <= b < |ps[a].jumps| && ps[a].jumps[b].givesCheck
        && 0 <= c < |ps[a].jumps[b].replies|
        && Get(ReplyFlags(ps[a].jumps[b], ps[a].jumps[b].replies[c]), which)
    {
      AnyOfIsExists(ps[a].jumps, OnJump(which));
      forall b | 0 <= b < |ps[a].jumps|
        ensures OnJump(which)(ps[a].jumps[b]) <==> ps[a].jumps[b].givesCheck && exists c ::
          && 0 <= c < |ps[a].jumps[b].replies|
          && Get(ReplyFlags(ps[a].jumps[b], ps[a].jumps[b].replies[c]), which)
      {
        AnyOfIsExists(ps[a].jumps[b].replies, OnReply(ps[a].jumps[b], which));
      }
    }
  }

  /** The candidate is vetoed as a knight fork exactly when no reply sets
      `secondYes` (a recapture I can answer with a cheap-enough retake), and
      either some reply sets `secondNo` (my capture of the knight can be
      recaptured) or none sets `firstYes` (the knight cannot be captured)
      while some sets `firstNo` (the knight can go on to take a queen,
      bishop or rook). */
  lemma KnightForkVetoMeans(ps: seq<EnemyPiece>)
    ensures KnightForkVeto(ps) <==>
      && !SomeReplySets(ps, SecondYes)
      && (SomeReplySets(ps, SecondNo) || (!SomeReplySets(ps, FirstYes) && SomeReplySets(ps, FirstNo)))
  {
    ScanFlagIsExists(ps, FirstYes);
    ScanFlagIsExists(ps, SecondYes);
    ScanFlagIsExists(ps, FirstNo);
    ScanFlagIsExists(ps, SecondNo);
  }

  // ---------------------------------------------------------------------
  // futurePawnAttack

  /** An enemy move after one of my moves, as the pawn probes read it:
      which piece moved and what it captured (`None` for a quiet move). */
  datatype Answer = Answer(mover: Piece, captured: Option<Piece>)

  /** One of my legal moves on the board after the enemy pawn advance, tried
      as a way to save the threatened piece: whether it is a major attack,
      the values of the moving and the attacked piece, and the enemy's
      legal moves afterwards. */
  datatype SaveTry = SaveTry(isMajorAttack: bool, movedValue: int, attackedValue: int, enemyAnswers: seq<Answer>)

  /** One enemy legal move after the candidate: the piece that moved,
      whether a piece stands on its destination afterwards, what each legal
      move of that piece would capture, and my legal moves on that board. */
  datatype EnemyAdvance = EnemyAdvance(
    mover: Piece,
    pieceOnArrival: bool,
    arrivalCaptures: seq<Option<Piece>>,
    saves: seq<SaveTry>)

  predicate IsMinorOrMajor(p: Option<Piece>)
  {
    p == Some(Bishop) || p == Some(Rook) || p == Some(Queen) || p == Some(Knight)
  }

  /** An enemy pawn capturing a bishop, queen, knight or rook. */
  predicate PawnTakesPiece(a: Answer)
  {
    IsMinorOrMajor(a.captured) && a.mover == Pawn
  }

  /** The `cantKill` counter: minus one then plus one for each answer that
      is a pawn taking a piece, plus one for every other answer. */
  function CantKill(answers: seq<Answer>): int
  {
    if |answers| == 0 then 0
    else (if PawnTakesPiece(answers[0]) then -1 else 0) + 1 + CantKill(answers[1..])
  }

  /** A save attempt is tried unless it attacks with a piece worth more
      than the one it attacks. */
  predicate Eligible(sv: SaveTry)
  {
    !sv.isMajorAttack || (sv.isMajorAttack && sv.movedValue <= sv.attackedValue)
  }

  /** The save attempt that sets `once`. */
  predicate SafeSave(sv: SaveTry)
  {
    Eligible(sv) && CantKill(sv.enemyAnswers) == |sv.enemyAnswers|
  }

  /** An advance that sets `makeOtherMove`: a pawn move after which the
      piece on its destination could capture one of my pieces other than a
      pawn or king. */
  predicate Threatens(a: EnemyAdvance)
  {
    a.mover == Pawn && a.pieceOnArrival && AnyOf(a.arrivalCaptures, IsMinorOrMajor)
  }

  function SavedAfterThreat(a: EnemyAdvance): Option<Piece> -> bool
  {
    (c: Option<Piece>) => IsMinorOrMajor(c) && AnyOf(a.saves, SafeSave)
  }

  /** An advance whose loops set `once`. */
  predicate SetsOnce(a: EnemyAdvance)
  {
    a.mover == Pawn && a.pieceOnArrival && AnyOf(a.arrivalCaptures, SavedAfterThreat(a))
  }

  /** `futurePawnAttack`: some advance threatens a piece, and no threatened
      situation anywhere had a safe save (`once` clears the verdict). */
  function FuturePawnVeto(advances: seq<EnemyAdvance>): bool
  {
    var makeOtherMove := AnyOf(advances, Threatens);
    var once := AnyOf(advances, SetsOnce);
    if once then false else makeOtherMove
  }

  /** `cantKill` equals the number of answers iff no answer is an enemy
      pawn taking a piece. */
  lemma {:induction false} CantKillCounts(answers: seq<Answer>)
    ensures CantKill(answers) == |answers| - CountIf(answers, PawnTakesPiece)
    ensures CantKill(answers) == |answers| <==> forall i :: 0 <= i < |answers| ==> !PawnTakesPiece(answers[i])
  {
    if |answers| > 0 {
      CantKillCounts(answers[1..]);
      if exists i :: 0 <= i < |answers| && PawnTakesPiece(answers[i]) {
        var i :| 0 <= i < |answers| && PawnTakesPiece(answers[i]);
        if i > 0 { assert answers[1..][i - 1] == answers[i]; }
      }
      if exists i :: 0 <= i < |answers[1..]| && PawnTakesPiece(answers[1..][i]) {
        var i :| 0 <= i < |answers[1..]| && PawnTakesPiece(answers[1..][i]);
        assert answers[i + 1] == answers[1..][i];
      }
    }
  }

  /** The verdict of `futurePawnAttack`: some enemy advance threatens one of
      my pieces, and for EVERY threatening advance each save attempt is
      either ineligible or still leaves an enemy pawn able to take a piece. */
  lemma FuturePawnVetoMeans(advances: seq<EnemyAdvance>)
    ensures FuturePawnVeto(advances) <==>
      && (exists i :: 0 <= i < |advances| && Threatens(advances[i]))
      && forall i, k :: 0 <= i < |advances| && Threatens(advances[i]) && 0 <= k < |advances[i].saves| ==>
           !Eligible(advances[i].saves[k])
           || exists m :: 0 <= m < |advances[i].saves[k].enemyAnswers| && PawnTakesPiece(advances[i].saves[k].enemyAnswers[m])
  {
    AnyOfIsExists(advances, Threatens);
    AnyOfIsExists(advances, SetsOnce);
    forall i | 0 <= i < |advances|
      ensures SetsOnce(advances[i]) <==> Threatens(advances[i]) && AnyOf(advances[i].saves, SafeSave)
    {
      var a := advances[i];
      AnyOfIsExists(a.arrivalCaptures, IsMinorOrMajor);
      AnyOfIsExists(a.arrivalCaptures, SavedAfterThreat(a));
    }
    forall i | 0 <= i < |advances|
      ensures AnyOf(advances[i].saves, SafeSave) <==>
        (exists k :: 0 <= k < |advances[i].saves| && Eligible(advances[i].saves[k]) &&
          forall m :: 0 <= m < |advances[i].saves[k].enemyAnswers| ==> !PawnTakesPiece(advances[i].saves[k].enemyAnswers[m]))
    {
      AnyOfIsExists(advances[i].saves, SafeSave);
      forall k | 0 <= k < |advances[i].saves| {
        CantKillCounts(advances[i].saves[k].enemyAnswers);
      }
    }
  }

  // ---------------------------------------------------------------------
  // checkQueenEscapes

  /** After one of my replies, some enemy piece other than a queen could
      capture my queen. */
  predicate QueenAttacked(enemyMoves: seq<Answer>)
  {
    AnyOf(enemyMoves, QueenTakenByNonQueen)
  }

  predicate QueenTakenByNonQueen(a: Answer)
  {
    a.captured == Some(Queen) && a.mover != Queen
  }

  predicate QueenNotAttacked(enemyMoves: seq<Answer>)
  {
    !QueenAttacked(enemyMoves)
  }

  /** One enemy legal move after the candidate, with, for each of my legal
      moves afterwards, the enemy's piece moves on the resulting board. */
  datatype EnemyThreat = EnemyThreat(myReplies: seq<seq<Answer>>)

  /** The check after the reply loop: `queenedAttackedOnBoards` is the
      number of legal moves, or one less. */
  predicate Cornered(t: EnemyThreat)
  {
    var attacked := CountIf(t.myReplies, QueenAttacked);
    attacked == |t.myReplies| - 1 || attacked == |t.myReplies|
  }

  /** `checkQueenEscapes`: some enemy move corners my queen. */
  function QueenEscapeVeto(threats: seq<EnemyThreat>): bool
  {
    AnyOf(threats, Cornered)
  }

  lemma {:induction false} CountIfComplement<T>(s: seq<T>, p: T -> bool, q: T -> bool)
    requires forall x :: q(x) == !p(x)
    ensures CountIf(s, p) + CountIf(s, q) == |s|
  {
    if |s| > 0 { CountIfComplement(s[1..], p, q); }
  }

  /** The queen is vetoed iff after some enemy move at most one of my legal
      moves leaves the queen unattacked (which includes having no legal
      move at all). */
  lemma QueenEscapeVetoMeans(threats: seq<EnemyThreat>)
    ensures QueenEscapeVeto(threats) <==>
      exists i :: 0 <= i < |threats| && CountIf(threats[i].myReplies, QueenNotAttacked) <= 1
  {
    AnyOfIsExists(threats, Cornered);
    forall i | 0 <= i < |threats|
      ensures Cornered(threats[i]) <==> CountIf(threats[i].myReplies, QueenNotAttacked) <= 1
    {
      CountIfComplement(threats[i].myReplies, QueenAttacked, QueenNotAttacked);
    }
  }

  // ---------------------------------------------------------------------
  // The root filter

  /** Everything the three probes read for one root candidate. */
  datatype Lookahead = Lookahead(knight: seq<EnemyPiece>, pawn: seq<EnemyAdvance>, queen: seq<EnemyThreat>)

  /** Does some probe reject the candidate? StockAlphaBeta runs the knight
      fork and pawn probes; AlphaBetaWithMoveOrdering adds the queen probe. */
  predicate Vetoed(withQueen: bool, l: Lookahead)
  {
    KnightForkVeto(l.knight) || FuturePawnVeto(l.pawn) || (withQueen && QueenEscapeVeto(l.queen))
  }

  function Acceptable(look: Child -> Lookahead, withQueen: bool): Child -> bool
  {
    (c: Child) => c.status == Done && !Vetoed(withQueen, look(c))
  }

  /** `actualMoves`: the DONE legal moves no probe rejects, in order; when
      there are none, ALL legal moves, DONE or not. */
  function RootCandidates(cs: seq<Child>, look: Child -> Lookahead, withQueen: bool): (r: seq<Child>)
    ensures |r| == 0 <==> |cs| == 0
    ensures forall c :: c in r ==> c in cs
    ensures (exists k :: 0 <= k < |cs| && Acceptable(look, withQueen)(cs[k])) ==>
      forall c :: c in r <==> c in cs && c.status == Done && !Vetoed(withQueen, look(c))
    ensures (forall k :: 0 <= k < |cs| ==> !Acceptable(look, withQueen)(cs[k])) ==> r == cs
  {
    var kept := Filter(cs, Acceptable(look, withQueen));
    if |kept| == 0 then cs
    else
      assert kept[0] in cs && Acceptable(look, withQueen)(kept[0]);
      kept
  }
}
