/** What the two `StandardBoardEvaluator`s read from a board, one record per
    player. The board, its pieces and the analyzers (pawn structure, king
    tropism, rook structure) are not modelled; their answers are fields. */
module BoardFacts {
  import opened Common
  import opened GameTree

  /** The piece a capture takes: its kind and `getPieceValue()`. */
  datatype Captured = Captured(kind: Piece, value: int)

  /** A move as the evaluators see it: the moved piece's kind and value, the
      destination square, and the captured piece, present exactly when the
      move is an attack. */
  datatype MoveFacts = MoveFacts(mover: Piece, moverValue: int, destination: int, captured: Option<Captured>)

  /** An active piece: kind, square (0..63), `getPieceValue()`,
      `locationBonus()`, and the moves `calculateLegalMoves(board)` gives it. */
  datatype PieceFacts = PieceFacts(kind: Piece, position: int, value: int, locationBonus: int, moves: seq<MoveFacts>)

  /** `KingSafetyAnalyzer.calculateKingTropism`: the closest enemy piece's
      value and its distance to the king. */
  datatype KingDistance = KingDistance(enemyValue: int, distance: int)

  /** One player of a board. `mobilityRatio` stands for the float-derived
      `mobilityRatio(player)`; `pawnStructure`, `kingDistance` and
      `rookStructure` for the analyzers' answers. */
  datatype PlayerFacts = PlayerFacts(
    pieces: seq<PieceFacts>,
    legalMoves: seq<MoveFacts>,
    inCheck: bool,
    inCheckMate: bool,
    isCastled: bool,
    kingSideCastleCapable: bool,
    queenSideCastleCapable: bool,
    mobilityRatio: int,
    pawnStructure: int,
    kingDistance: KingDistance,
    rookStructure: int)

  datatype Board = Board(white: PlayerFacts, black: PlayerFacts)

  /** The same board with the two players' roles exchanged. */
  function Swapped(b: Board): Board
  {
    Board(b.black, b.white)
  }

  /** A board's evaluation under a per-player score: white's minus black's,
      in Java `int` arithmetic. */
  function Versus(score: (PlayerFacts, PlayerFacts, int) -> int, b: Board, depth: int): Int32
  {
    Wrap32(score(b.white, b.black, depth) - score(b.black, b.white, depth))
  }

  lemma VersusAntisymmetric(score: (PlayerFacts, PlayerFacts, int) -> int, b: Board, depth: int)
    ensures Versus(score, Swapped(b), depth) == Wrap32(0 - Versus(score, b, depth) as int)
  {
    WrapNegatedDifference(score(b.white, b.black, depth), score(b.black, b.white, depth));
  }

  /** The sum of the pieces' `getPieceValue()`. */
  function Material(ps: seq<PieceFacts>): int
  {
    if |ps| == 0 then 0 else ps[0].value + Material(ps[1..])
  }

  /** One more piece adds exactly its value to the material. */
  lemma {:induction false} MaterialAppend(ps: seq<PieceFacts>, x: PieceFacts)
    ensures Material(ps + [x]) == Material(ps) + x.value
  {
    if |ps| == 0 {
      assert ps + [x] == [x] && [x][1..] == [];
    } else {
      assert (ps + [x])[1..] == ps[1..] + [x];
      MaterialAppend(ps[1..], x);
    }
  }

  function IsBishop(p: PieceFacts): bool { p.kind == Bishop }
}
