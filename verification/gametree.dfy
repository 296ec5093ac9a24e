/** The position oracle, abstracted as a finite game tree.

    A `Pos` is an immutable position snapshot. Its `children` are the
    current player's legal moves in enumeration order, each paired with the
    status and resulting position that `makeMove` produces. Everything the
    search strategies ask the board (check, checkmate, stalemate, the move
    log) is a field; everything they ask a move (castling, capture, the
    `BoardUtils` ordering keys) is a field of `Move`. */
module GameTree {
  import opened Common

  datatype Side = White | Black
  {
    function Opponent(): Side { if this == White then Black else White }
  }

  /** The kind of a piece (`instanceof Pawn`, ...). */
  datatype Piece = Pawn | Knight | Bishop | Rook | Queen | King

  /** Outcome of `Player.makeMove`; only `Done` transitions are searched. */
  datatype Status = Done | IllegalMove | LeavesPlayerInCheck

  /** A move, reduced to the facts the search and the move orderings read.
      `mvvlva`, `kingThreat` and `threatenedBoard` stand for the values of
      `BoardUtils.mvvlva`, `BoardUtils.kingThreat` and
      `BoardUtils.isThreatenedBoardImmediate(move.getBoard())`; `piece` is
      the moved piece's kind, `destination` its target square and `notation`
      the move's `toString()` (standard algebraic notation). */
  datatype Move = Move(
    id: int,
    isAttack: bool,
    isCastling: bool,
    movedValue: int,
    mvvlva: int,
    kingThreat: bool,
    threatenedBoard: bool,
    piece: Piece,
    destination: Square,
    notation: string)

  /** A board square, 0 (a8) to 63 (h1). */
  type Square = x: int | 0 <= x < 64

  /** A tile of the board: empty, or holding a piece of some kind with its
      `getPieceValue()`. */
  datatype Tile = Empty | Occupied(kind: Piece, value: int)

  /** The 64 tiles of a board, indexed by square. */
  type Tiles = s: seq<Tile> | |s| == 64 witness seq(64, _ => Empty)

  /** `inCheck`, `inCheckMate` and `inStaleMate` describe the player to move;
      `history` is the game's move log up to this position; `tiles` is the
      board itself. */
  datatype Pos = Pos(
    toMove: Side,
    tiles: Tiles,
    inCheck: bool,
    inCheckMate: bool,
    inStaleMate: bool,
    history: seq<Move>,
    children: seq<Child>)

  /** One legal move of the parent position and the transition it makes. */
  datatype Child = Child(move: Move, status: Status, next: Pos)

  /** `isEndGameScenario`: the player to move is checkmated or stalemated. */
  predicate IsEndGame(p: Pos) { p.inCheckMate || p.inStaleMate }

  /** Search stops here: the depth is spent or the game is over. */
  predicate IsLeaf(p: Pos, depth: int) { depth == 0 || IsEndGame(p) }

  /** True when `c` is one of `p`'s children, so it is strictly smaller. */
  predicate ChildrenOf(p: Pos, cs: seq<Child>)
  {
    forall k :: 0 <= k < |cs| ==> cs[k] in p.children
  }

  /** A static evaluator, as every search strategy receives it. */
  type Evaluator = (Pos, int) -> Int32
}
