/** The JChess `StandardBoardEvaluator`: each player scores material, a
    check and a checkmate bonus against the opponent, a castling bonus, its
    number of legal moves and a depth term; the evaluation is white's score
    minus black's, in Java `int` arithmetic. */
module JChessEvaluator {
  import opened Common
  import opened GameTree
  import opened BoardFacts

  const CHECK_BONUS: int := 8
  const CASTLED_BONUS: int := 40

  /** `futureError`: 1 at depth 0, otherwise 100 per remaining ply. */
  function FutureError(depth: int): int
  {
    if depth == 0 then 1 else 100 * depth
  }

  function Check(opponent: PlayerFacts): int { if opponent.inCheck then CHECK_BONUS else 0 }

  function CheckMate(opponent: PlayerFacts): int { if opponent.inCheckMate then CHECK_BONUS * 2 else 0 }

  function Castled(me: PlayerFacts): int { if me.isCastled then CASTLED_BONUS else 0 }

  /** `scorePlayer`, exactly (before the `int` wrap-around). */
  function ScorePlayer(me: PlayerFacts, opponent: PlayerFacts, depth: int): int
  {
    Material(me.pieces) + Check(opponent) + CheckMate(opponent) + Castled(me) + |me.legalMoves| + FutureError(depth)
  }

  /** The part of a player's score that does not depend on the depth. */
  function Standing(me: PlayerFacts, opponent: PlayerFacts): int
  {
    Material(me.pieces) + Check(opponent) + CheckMate(opponent) + Castled(me) + |me.legalMoves|
  }

  /** `evaluate`: the depth term is added to both players and cancels, so
      the evaluation does not depend on the depth. */
  function Evaluate(b: Board, depth: int): (r: Int32)
    ensures r == Wrap32(Standing(b.white, b.black) - Standing(b.black, b.white))
  {
    Wrap32(ScorePlayer(b.white, b.black, depth) - ScorePlayer(b.black, b.white, depth))
  }

  /** Exchanging the players negates the evaluation (modulo 2^32, as Java's
      unary minus does). */
  lemma Antisymmetric(b: Board, depth: int)
    ensures Evaluate(Swapped(b), depth) == Wrap32(0 - Evaluate(b, depth) as int)
  {
    WrapNegatedDifference(Standing(b.white, b.black), Standing(b.black, b.white));
  }

  /** Gaining a piece raises a player's score by exactly the piece's
      value, everything else being equal. */
  lemma GainedPiece(me: PlayerFacts, opponent: PlayerFacts, depth: int, x: PieceFacts)
    ensures ScorePlayer(me.(pieces := me.pieces + [x]), opponent, depth) == ScorePlayer(me, opponent, depth) + x.value
  {
    MaterialAppend(me.pieces, x);
  }

  /** A white piece more raises the evaluation by its value (modulo 2^32). */
  lemma WhiteGainsPiece(b: Board, depth: int, x: PieceFacts)
    ensures Evaluate(b.(white := b.white.(pieces := b.white.pieces + [x])), depth) == Wrap32(Evaluate(b, depth) as int + x.value)
  {
    var w := b.white.(pieces := b.white.pieces + [x]);
    MaterialAppend(b.white.pieces, x);
    var d := Standing(b.white, b.black) - Standing(b.black, b.white);
    assert Standing(w, b.black) - Standing(b.black, w) == d + x.value;
    WrapCongruent(Wrap32(d) + x.value, d + x.value);
  }

  /** The evaluator handed to the search, given how to read a position. */
  function AsEvaluator(view: Pos -> Board): Evaluator
  {
    (p, depth) => Evaluate(view(p), depth)
  }
}
