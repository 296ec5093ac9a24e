/** The mChess `StandardBoardEvaluator`: each player's `score` is the sum of
    fifteen terms (mobility, king threats, good captures, castling, piece
    evaluations, pawn structure, king safety, rook structure, check, bishops
    and knights in play, pawns in the centre and the dead centre, the bishop pair,
    a penalty for a piece attacked by pawns, and a penalty for an enemy pawn
    forking two pieces); the evaluation is white's score minus black's, in
    Java `int` arithmetic. */
module MChessEvaluator {
  import opened Common
  import opened GameTree
  import opened BoardFacts

  const DONT_DIE_TO_PAWN: int := -15
  const DOUBLE_PAWN_ATTACK_NEGATIVE: int := -20
  const BISHOP_DUO_BONUS: int := 12
  const PAWN_IN_CENTER_BONUS: int := 2
  const MAJOR_IN_PLAY_BONUS: int := 3
  const CHECK_MATE_BONUS: int := 10000
  const CHECK_BONUS: int := 10
  const CASTLE_BONUS: int := 25
  const CASTLE_CAPABLE_BONUS: int := 10
  const MOBILITY_MULTIPLIER: int := 1
  const ATTACK_MULTIPLIER: int := 1
  const TWO_BISHOPS_BONUS: int := 49

  // ---------------------------------------------------------------------
  // Squares (0 is the top-left corner, 63 the bottom-right)

  /** The twelve squares of `pawnsInCenter`. */
  const CENTER_RING: set<int> := {18, 19, 20, 21, 26, 29, 34, 37, 42, 43, 44, 45}

  /** The four squares of `pawnsInDeadCenter`. */
  const DEAD_CENTER: set<int> := {27, 28, 35, 36}

  /** The thirty-six squares of `majorPiecesInPlay`. */
  const INNER_SQUARES: set<int> := {
    9, 10, 11, 12, 13, 14, 17, 18, 19, 20, 21, 22, 25, 26, 27, 28, 29, 30,
    33, 34, 35, 36, 37, 38, 41, 42, 43, 44, 45, 46, 49, 50, 51, 52, 53, 54}

  /** `sq` lies on the board, in rows `lo..hi` and columns `lo..hi`. */
  predicate InBlock(sq: int, lo: int, hi: int)
  {
    0 <= sq < 64 && lo <= sq / 8 <= hi && lo <= sq % 8 <= hi
  }

  /** The three square lists are nested blocks around the centre: the inner
      squares are the board without its edge, the dead centre is the central
      2x2 block, and the centre ring is the central 4x4 block without it. */
  lemma SquareGeometry(sq: int)
    ensures sq in INNER_SQUARES <==> InBlock(sq, 1, 6)
    ensures sq in DEAD_CENTER <==> InBlock(sq, 3, 4)
    ensures sq in CENTER_RING <==> InBlock(sq, 2, 5) && !InBlock(sq, 3, 4)
  {
    if 0 <= sq < 64 {
      var r, c := sq / 8, sq % 8;
      assert sq == 8 * r + c && 0 <= r < 8 && 0 <= c < 8;
    }
  }

  /** No square counts for both pawn bonuses. */
  lemma CentreBonusesDisjoint()
    ensures CENTER_RING * DEAD_CENTER == {}
    ensures CENTER_RING <= INNER_SQUARES && DEAD_CENTER <= INNER_SQUARES
  {
    forall sq | sq in CENTER_RING ensures sq !in DEAD_CENTER && sq in INNER_SQUARES {
      SquareGeometry(sq);
    }
    forall sq | sq in DEAD_CENTER ensures sq in INNER_SQUARES {
      SquareGeometry(sq);
    }
  }

  // ---------------------------------------------------------------------
  // The terms of `score`

  function Mobility(me: PlayerFacts): int { MOBILITY_MULTIPLIER * me.mobilityRatio }

  /** `depthBonus`: 1 at depth 0, otherwise 100 per remaining ply. */
  function DepthBonus(depth: int): int
  {
    if depth == 0 then 1 else 100 * depth
  }

  /** The checkmate bonus at a given remaining depth. */
  function MateBonus(depth: int): int { CHECK_MATE_BONUS * DepthBonus(depth) }

  /** A mate found with more plies left to search (that is, sooner) is
      worth strictly more. */
  lemma {:induction false} MateBonusIncreases(d1: int, d2: int)
    requires 0 <= d1 < d2
    ensures 0 < MateBonus(d1) < MateBonus(d2)
  {
    if d1 == 0 {
      assert MateBonus(d2) == 1_000_000 * d2;
    } else {
      assert MateBonus(d2) - MateBonus(d1) == 1_000_000 * (d2 - d1);
    }
  }

  function Check(opponent: PlayerFacts): int { if opponent.inCheck then CHECK_BONUS else 0 }

  function KingThreats(opponent: PlayerFacts, depth: int): int
  {
    if opponent.inCheckMate then MateBonus(depth) else Check(opponent)
  }

  /** `kingThreats` falls back to `check`, and `score` adds `check` again:
      an opponent in check but not mated earns the bonus twice. */
  lemma CheckCountedTwice(opponent: PlayerFacts, depth: int)
    ensures !opponent.inCheckMate ==> KingThreats(opponent, depth) + Check(opponent) == 2 * Check(opponent)
    ensures opponent.inCheck && !opponent.inCheckMate ==> KingThreats(opponent, depth) + Check(opponent) == 2 * CHECK_BONUS
  {
  }

  /** A capture whose mover is worth no more than its victim. */
  predicate GoodCapture(m: MoveFacts)
  {
    m.captured.Some? && m.moverValue <= m.captured.value.value
  }

  /** `attacks`: one point per good capture among the legal moves. */
  function Attacks(me: PlayerFacts): (r: int)
    ensures 0 <= r <= |me.legalMoves|
    ensures r == 0 <==> forall k :: 0 <= k < |me.legalMoves| ==> !GoodCapture(me.legalMoves[k])
  {
    CountIfZero(me.legalMoves, GoodCapture);
    CountIf(me.legalMoves, GoodCapture) * ATTACK_MULTIPLIER
  }

  lemma {:induction false} CountIfZero<T>(s: seq<T>, p: T -> bool)
    ensures CountIf(s, p) == 0 <==> forall k :: 0 <= k < |s| ==> !p(s[k])
  {
    if |s| > 0 {
      CountIfZero(s[1..], p);
      if CountIf(s[1..], p) != 0 {
        var k :| 0 <= k < |s[1..]| && p(s[1..][k]);
        assert p(s[k + 1]);
      }
    }
  }

  /** `castle`: 25 when castled, else 10 while a castling right remains,
      else 0. */
  function Castle(me: PlayerFacts): (r: int)
    ensures r == 25 <==> me.isCastled
    ensures r == 10 <==> !me.isCastled && (me.kingSideCastleCapable || me.queenSideCastleCapable)
    ensures r == 0 <==> !me.isCastled && !me.kingSideCastleCapable && !me.queenSideCastleCapable
  {
    if me.isCastled then CASTLE_BONUS
    else if me.kingSideCastleCapable || me.queenSideCastleCapable then CASTLE_CAPABLE_BONUS
    else 0
  }

  /** The pieces' values and location bonuses, summed. */
  function Placement(ps: seq<PieceFacts>): int
  {
    if |ps| == 0 then 0 else ps[0].value + ps[0].locationBonus + Placement(ps[1..])
  }

  /** The sum of the pieces' `locationBonus()`. */
  function LocationBonuses(ps: seq<PieceFacts>): int
  {
    if |ps| == 0 then 0 else ps[0].locationBonus + LocationBonuses(ps[1..])
  }

  /** The summed placement is the material plus the location bonuses. */
  lemma {:induction false} PlacementSplits(ps: seq<PieceFacts>)
    ensures Placement(ps) == Material(ps) + LocationBonuses(ps)
  {
    if |ps| > 0 {
      PlacementSplits(ps[1..]);
    }
  }

  lemma {:induction false} PlacementAppend(ps: seq<PieceFacts>, x: PieceFacts)
    ensures Placement(ps + [x]) == Placement(ps) + x.value + x.locationBonus
  {
    if |ps| == 0 {
      assert ps + [x] == [x] && [x][1..] == [];
    } else {
      assert (ps + [x])[1..] == ps[1..] + [x];
      PlacementAppend(ps[1..], x);
    }
  }

  function Bishops(me: PlayerFacts): nat { CountIf(me.pieces, IsBishop) }

  /** `pieceEvaluations`: values and location bonuses, plus 49 for exactly
      two bishops (not three, not one). */
  function PieceEvaluations(me: PlayerFacts): (r: int)
    ensures r - Placement(me.pieces) == (if Bishops(me) == 2 then TWO_BISHOPS_BONUS else 0)
  {
    Placement(me.pieces) + (if Bishops(me) == 2 then TWO_BISHOPS_BONUS else 0)
  }

  /** `pieceEvaluations` is the material plus the location bonuses, plus
      the pair bonus for exactly two bishops. */
  lemma PieceEvaluationsSplit(me: PlayerFacts)
    ensures PieceEvaluations(me) == Material(me.pieces) + LocationBonuses(me.pieces) + (if Bishops(me) == 2 then TWO_BISHOPS_BONUS else 0)
  {
    PlacementSplits(me.pieces);
  }

  /** One more piece adds its value and location bonus to `pieceEvaluations`;
      a second bishop also earns the pair bonus, and a third takes it away. */
  lemma PieceEvaluationsAppend(me: PlayerFacts, x: PieceFacts)
    ensures var gain := PieceEvaluations(me.(pieces := me.pieces + [x])) - PieceEvaluations(me);
      && (!IsBishop(x) ==> gain == x.value + x.locationBonus)
      && (IsBishop(x) && Bishops(me) == 1 ==> gain == x.value + x.locationBonus + TWO_BISHOPS_BONUS)
      && (IsBishop(x) && Bishops(me) == 2 ==> gain == x.value + x.locationBonus - TWO_BISHOPS_BONUS)
      && (IsBishop(x) && Bishops(me) != 1 && Bishops(me) != 2 ==> gain == x.value + x.locationBonus)
  {
    PlacementAppend(me.pieces, x);
    CountIfAppend(me.pieces, [x], IsBishop);
    assert [x][1..] == [];
  }

  /** `kingSafety`: the tropism piece's value in hundreds (Java division)
      times its distance to the king. */
  function KingSafety(me: PlayerFacts): int
  {
    JavaDiv(me.kingDistance.enemyValue, 100) * me.kingDistance.distance
  }

  function IsMinorOnInner(p: PieceFacts): bool
  {
    (p.kind == Bishop || p.kind == Knight) && p.position in INNER_SQUARES
  }

  function IsPawnOnRing(p: PieceFacts): bool { p.kind == Pawn && p.position in CENTER_RING }

  function IsPawnOnDeadCenter(p: PieceFacts): bool { p.kind == Pawn && p.position in DEAD_CENTER }

  /** `majorPiecesInPlay`: 3 per bishop or knight off the board's edge. */
  function MajorPiecesInPlay(me: PlayerFacts): (r: int)
    ensures 0 <= r <= MAJOR_IN_PLAY_BONUS * |me.pieces|
  {
    CountIf(me.pieces, IsMinorOnInner) * MAJOR_IN_PLAY_BONUS
  }

  /** `pawnsInCenter`: 2 per pawn on the centre ring. */
  function PawnsInCenter(me: PlayerFacts): (r: int)
    ensures 0 <= r <= PAWN_IN_CENTER_BONUS * |me.pieces|
  {
    CountIf(me.pieces, IsPawnOnRing) * PAWN_IN_CENTER_BONUS
  }

  /** `pawnsInDeadCenter`: 4 per pawn on the dead centre. */
  function PawnsInDeadCenter(me: PlayerFacts): (r: int)
    ensures 0 <= r <= 2 * PAWN_IN_CENTER_BONUS * |me.pieces|
  {
    CountIf(me.pieces, IsPawnOnDeadCenter) * PAWN_IN_CENTER_BONUS * 2
  }

  /** `duoBishop`: with more than one bishop, 12 while fewer than 27 pieces
      remain on the board, and 12 / 4 = 3 before that; otherwise 0. */
  function DuoBishop(me: PlayerFacts, opponent: PlayerFacts): (r: int)
    ensures r > 0 <==> Bishops(me) > 1
    ensures r > 0 ==> (r == 12 <==> |me.pieces| + |opponent.pieces| < 27) && (r == 3 <==> |me.pieces| + |opponent.pieces| >= 27)
  {
    if |me.pieces| + |opponent.pieces| < 27 then
      (if Bishops(me) > 1 then BISHOP_DUO_BONUS else 0)
    else
      (if Bishops(me) > 1 then JavaDiv(BISHOP_DUO_BONUS, 4) else 0)
  }

  /** A knight, bishop, rook or queen. */
  predicate IsMajor(p: PieceFacts)
  {
    p.kind == Knight || p.kind == Bishop || p.kind == Rook || p.kind == Queen
  }

  /** The opponent's pawn moves that land on `square`. */
  function PawnHits(oppMoves: seq<MoveFacts>, square: int): nat
  {
    if |oppMoves| == 0 then 0
    else (if oppMoves[0].destination == square && oppMoves[0].mover == Pawn then 1 else 0) + PawnHits(oppMoves[1..], square)
  }

  /** `majorIsAttacked` over the pieces `ps`: -15 times the number of
      enemy pawn moves onto the FIRST attacked major piece, or 0. */
  function MajorIsAttackedFrom(ps: seq<PieceFacts>, oppMoves: seq<MoveFacts>): (r: int)
    ensures r <= 0
    ensures r == 0 <==> forall k :: 0 <= k < |ps| && IsMajor(ps[k]) ==> PawnHits(oppMoves, ps[k].position) == 0
    ensures r != 0 ==> exists k ::
      && 0 <= k < |ps| && IsMajor(ps[k]) && PawnHits(oppMoves, ps[k].position) > 0
      && r == DONT_DIE_TO_PAWN * PawnHits(oppMoves, ps[k].position)
      && (forall j :: 0 <= j < k && IsMajor(ps[j]) ==> PawnHits(oppMoves, ps[j].position) == 0)
  {
    if |ps| == 0 then 0
    else
      var hits := PawnHits(oppMoves, ps[0].position);
      if IsMajor(ps[0]) && hits > 0 then DONT_DIE_TO_PAWN * hits
      else
        var r := MajorIsAttackedFrom(ps[1..], oppMoves);
        assert r == 0 <==> forall k :: 0 <= k < |ps| && IsMajor(ps[k]) ==> PawnHits(oppMoves, ps[k].position) == 0 by {
          if r == 0 {
            forall k | 0 < k < |ps| && IsMajor(ps[k]) ensures PawnHits(oppMoves, ps[k].position) == 0 {
              assert ps[1..][k - 1] == ps[k];
            }
          } else {
            var k :| 0 <= k < |ps[1..]| && IsMajor(ps[1..][k]) && PawnHits(oppMoves, ps[1..][k].position) > 0;
            assert ps[k + 1] == ps[1..][k];
          }
        }
        if r != 0 then
          var k :| 0 <= k < |ps[1..]| && IsMajor(ps[1..][k]) && PawnHits(oppMoves, ps[1..][k].position) > 0
            && r == DONT_DIE_TO_PAWN * PawnHits(oppMoves, ps[1..][k].position)
            && forall j :: 0 <= j < k && IsMajor(ps[1..][j]) ==> PawnHits(oppMoves, ps[1..][j].position) == 0;
          assert ps[k + 1] == ps[1..][k];
          assert forall j :: 0 < j < k + 1 && IsMajor(ps[j]) ==> PawnHits(oppMoves, ps[j].position) == 0 by {
            forall j | 0 < j < k + 1 && IsMajor(ps[j]) ensures PawnHits(oppMoves, ps[j].position) == 0 {
              assert ps[1..][j - 1] == ps[j];
            }
          }
          r
        else r
  }

  function MajorIsAttacked(me: PlayerFacts, opponent: PlayerFacts): int
  {
    MajorIsAttackedFrom(me.pieces, opponent.legalMoves)
  }

  /** A pawn move that captures something other than a pawn. */
  function HitsPiece(m: MoveFacts): bool
  {
    m.captured.Some? && m.captured.value.kind != Pawn
  }

  /** An enemy pawn with more than one capture of a non-pawn. */
  predicate ForkingPawn(p: PieceFacts)
  {
    p.kind == Pawn && CountIf(p.moves, HitsPiece) > 1
  }

  /** `enemyHasTwoAttackPawn` over the enemy pieces: -20 if some enemy pawn
      forks two pieces, otherwise 0. */
  function TwoAttackPawnIn(enemy: seq<PieceFacts>): (r: int)
    ensures r == DOUBLE_PAWN_ATTACK_NEGATIVE || r == 0
    ensures r == DOUBLE_PAWN_ATTACK_NEGATIVE <==> exists k :: 0 <= k < |enemy| && ForkingPawn(enemy[k])
  {
    if |enemy| == 0 then 0
    else if ForkingPawn(enemy[0]) then DOUBLE_PAWN_ATTACK_NEGATIVE
    else
      var r := TwoAttackPawnIn(enemy[1..]);
      assert r == DOUBLE_PAWN_ATTACK_NEGATIVE <==> exists k :: 0 <= k < |enemy| && ForkingPawn(enemy[k]) by {
        if r == DOUBLE_PAWN_ATTACK_NEGATIVE {
          var k :| 0 <= k < |enemy[1..]| && ForkingPawn(enemy[1..][k]);
          assert enemy[k + 1] == enemy[1..][k];
        } else {
          forall k | 0 <= k < |enemy| ensures !ForkingPawn(enemy[k]) {
            if k > 0 { assert enemy[1..][k - 1] == enemy[k]; }
          }
        }
      }
      r
  }

  function EnemyHasTwoAttackPawn(me: PlayerFacts, opponent: PlayerFacts): int
  {
    TwoAttackPawnIn(opponent.pieces)
  }

  /** `score`, exactly (before the `int` wrap-around). */
  function Score(me: PlayerFacts, opponent: PlayerFacts, depth: int): int
  {
    Mobility(me)
    + KingThreats(opponent, depth)
    + Attacks(me)
    + Castle(me)
    + PieceEvaluations(me)
    + me.pawnStructure
    + KingSafety(me)
    + me.rookStructure
    + Check(opponent)
    + MajorPiecesInPlay(me)
    + PawnsInCenter(me)
    + PawnsInDeadCenter(me)
    + DuoBishop(me, opponent)
    + MajorIsAttacked(me, opponent)
    + EnemyHasTwoAttackPawn(me, opponent)
  }

  /** `evaluate`: white's score minus black's. */
  function Evaluate(b: Board, depth: int): Int32
  {
    Versus(Score, b, depth)
  }

  /** Exchanging the players negates the evaluation (modulo 2^32, as Java's
      unary minus does). */
  lemma Antisymmetric(b: Board, depth: int)
    ensures Evaluate(Swapped(b), depth) == Wrap32(0 - Evaluate(b, depth) as int)
  {
    VersusAntisymmetric(Score, b, depth);
  }

  /** Mating the opponent outweighs everything else: with the players' other
      facts fixed, a checkmated black raises white's exact score by the mate
      bonus less the check bonus it replaces. */
  lemma MateDominates(me: PlayerFacts, opponent: PlayerFacts, depth: int)
    requires opponent.inCheck && !opponent.inCheckMate
    ensures Score(me, opponent.(inCheckMate := true), depth) - Score(me, opponent, depth) == MateBonus(depth) - CHECK_BONUS
  {
  }

  /** The evaluator handed to the search, given how to read a position. */
  function AsEvaluator(view: Pos -> Board): Evaluator
  {
    (p, depth) => Evaluate(view(p), depth)
  }
}
