/** `PGNChess`: turns each game string into training pairs. The move text
    is cleaned and split into tokens, the last token gives the winner, and
    the moves are replayed from the starting position; while the winner is
    to move, the board (64 piece values, negated when black is to move) is
    paired with a label of the move played: the moved piece's kind, the
    destination file or the destination rank. */
module PgnChess {
  import opened Common
  import opened GameTree
  import opened PgnText
  import PgnParser

  // ------------------------------------------------------------- the text

  /** The three `replaceAll` passes and `split(" ")`. */
  function Tokens(pgn: string): (parts: seq<string>)
    ensures forall k :: 0 <= k < |parts| ==> ' ' !in parts[k]
  {
    JavaSplit(CollapsePairs(NewlinesToSpaces(StripMoveNumbers(pgn))), ' ')
  }

  /** The `black` / `white` flags: at most one side is recorded. */
  datatype Winner = WhiteWon | BlackWon | NoWinner

  /** The flags set from the result token `winner.split("-")`: black wins
      when the first half contains a `0`, otherwise white when the second
      does. `None` is the `ArrayIndexOutOfBoundsException` of a missing
      half. */
  function WinnerOf(result: string): (r: Option<Winner>)
    ensures r == None <==>
      |JavaSplit(result, '-')| == 0 || ('0' !in JavaSplit(result, '-')[0] && |JavaSplit(result, '-')| < 2)
  {
    var halves := JavaSplit(result, '-');
    if |halves| == 0 then None
    else if '0' in halves[0] then Some(BlackWon)
    else if |halves| < 2 then None
    else if '0' in halves[1] then Some(WhiteWon)
    else Some(NoWinner)
  }

  /** The three standard results give the expected winner. */
  lemma WhiteWinResult()
    ensures WinnerOf("1-0") == Some(WhiteWon)
  {
    assert Join(["1", "0"], '-') == "1-0";
    SplitOfJoin(["1", "0"], '-');
  }

  lemma BlackWinResult()
    ensures WinnerOf("0-1") == Some(BlackWon)
  {
    assert Join(["0", "1"], '-') == "0-1";
    SplitOfJoin(["0", "1"], '-');
  }

  lemma DrawResult()
    ensures WinnerOf("1/2-1/2") == Some(NoWinner)
  {
    assert Join(["1/2", "1/2"], '-') == "1/2-1/2";
    SplitOfJoin(["1/2", "1/2"], '-');
  }

  /** A game as read from its text: the winner and the move tokens. */
  datatype Game = Game(winner: Winner, moves: seq<string>)

  /** The header of every `playOutPGN*`: the winner from the last token and
      the moves from all tokens but the last two. `None` is an exception
      (no token at all, or a result without two halves). */
  function ReadGame(pgn: string): (r: Option<Game>)
    ensures r.Some? ==> |Tokens(pgn)| >= 1 && WinnerOf(Tokens(pgn)[|Tokens(pgn)| - 1]) == Some(r.value.winner)
    ensures r.Some? ==> |r.value.moves| == (if |Tokens(pgn)| >= 2 then |Tokens(pgn)| - 2 else 0)
    ensures r.Some? ==> r.value.moves == Tokens(pgn)[..|r.value.moves|]
    ensures r.None? <==> |Tokens(pgn)| == 0 || WinnerOf(Tokens(pgn)[|Tokens(pgn)| - 1]).None?
  {
    var parts := Tokens(pgn);
    if |parts| == 0 then None
    else match WinnerOf(parts[|parts| - 1])
      case None => None
      case Some(w) => Some(Game(w, if |parts| >= 2 then parts[..|parts| - 2] else []))
  }

  /** An empty game string (a result line that was not collected closes a
      game with no text) raises the exception. */
  lemma EmptyGameThrows()
    ensures ReadGame("") == None
  {
    assert StripMoveNumbers("") == "";
    assert CollapsePairs(NewlinesToSpaces("")) == "";
    assert Tokens("") == [""];
  }

  /** Words without spaces, line breaks or move numbers. */
  predicate Word(w: string)
  {
    w != "" && ' ' !in w && '\n' !in w
  }

  /** Move text on one line, words separated by single spaces: the tokens
      are the words, and the last word before the result is not among the
      moves replayed. */
  lemma TokensOfOneLine(ws: seq<string>)
    requires |ws| >= 2
    requires forall k :: 0 <= k < |ws| ==> Word(ws[k])
    requires NoMoveNumber(Join(ws, ' ') + "\n")
    ensures Tokens(Join(ws, ' ') + "\n") == ws
    ensures ReadGame(Join(ws, ' ') + "\n").Some? ==> ReadGame(Join(ws, ' ') + "\n").value.moves == ws[..|ws| - 2]
  {
    var text := Join(ws, ' ');
    StripLeavesCleanText(text + "\n");
    JoinWords(ws);
    NewlinesToSpacesAtEnd(text);
    TrailingSpaceIsSingle(text);
    CollapseLeavesSingleSpaces(text + " ");
    SplitWordsAndSpace(ws);
  }

  /** A text ending in a non-space, with no double space, keeps none after
      one more space. */
  lemma TrailingSpaceIsSingle(text: string)
    requires NoDoubleSpace(text) && |text| > 0 && text[|text| - 1] != ' '
    ensures NoDoubleSpace(text + " ")
  {
    var s := text + " ";
    forall i | 0 <= i < |s| - 1
      ensures !(s[i] == ' ' && s[i + 1] == ' ')
    {
      assert s[i] == text[i];
      if i + 1 < |text| {
        assert s[i + 1] == text[i + 1];
      }
    }
  }

  /** Splitting words joined by spaces, plus a trailing space, at spaces
      gives the words. */
  lemma SplitWordsAndSpace(ws: seq<string>)
    requires |ws| >= 1
    requires forall k :: 0 <= k < |ws| ==> Word(ws[k])
    ensures JavaSplit(Join(ws, ' ') + " ", ' ') == ws
  {
    var text := Join(ws, ' ');
    JoinSnocEmpty(ws, ' ');
    assert text + " " == Join(ws + [""], ' ');
    PiecesOfJoin(ws + [""], ' ');
    assert (text + " ")[|text|] == ' ';
    assert JavaSplit(text + " ", ' ') == DropTrailingEmpty(ws + [""]);
    assert DropTrailingEmpty(ws + [""]) == DropTrailingEmpty(ws) by {
      assert (ws + [""])[..|ws|] == ws;
    }
    assert ws[|ws| - 1] != "";
  }

  /** A join of words has no line break, no double space, and ends in a
      non-space. */
  lemma {:induction false} JoinWords(ws: seq<string>)
    requires |ws| >= 1
    requires forall k :: 0 <= k < |ws| ==> Word(ws[k])
    ensures '\n' !in Join(ws, ' ') && NoDoubleSpace(Join(ws, ' '))
    ensures |Join(ws, ' ')| > 0 && Join(ws, ' ')[|Join(ws, ' ')| - 1] != ' '
    ensures Join(ws, ' ')[0] != ' '
  {
    if |ws| > 1 {
      JoinWords(ws[1..]);
      var a, b := ws[0], Join(ws[1..], ' ');
      var s := a + " " + b;
      assert Join(ws, ' ') == s;
      forall i | 0 <= i < |s| - 1
        ensures !(s[i] == ' ' && s[i + 1] == ' ')
      {
        if i < |a| - 1 {
          assert s[i] == a[i];
        } else if i == |a| - 1 {
          assert s[i] == a[i];
        } else if i == |a| {
          assert s[i + 1] == b[0];
        } else {
          assert s[i] == b[i - |a| - 1] && s[i + 1] == b[i - |a|];
        }
      }
      forall k | 0 <= k < |s| ensures s[k] != '\n' {
        if k < |a| { assert s[k] == a[k]; } else if k > |a| { assert s[k] == b[k - |a| - 1]; }
      }
      assert s[|s| - 1] == b[|b| - 1];
      assert s[0] == a[0];
    } else {
      assert Join(ws, ' ') == ws[0];
      assert ws[0][0] in ws[0];
      assert ws[0][|ws[0]| - 1] in ws[0];
      forall i | 0 <= i < |ws[0]| - 1
        ensures !(ws[0][i] == ' ' && ws[0][i + 1] == ' ')
      {
        assert ws[0][i] in ws[0];
      }
    }
  }

  lemma {:induction false} NewlinesToSpacesAtEnd(text: string)
    requires '\n' !in text
    ensures NewlinesToSpaces(text + "\n") == text + " "
  {
    if |text| > 0 {
      NewlinesToSpacesAtEnd(text[1..]);
      assert (text + "\n")[1..] == text[1..] + "\n";
      assert text[0] in text;
    }
  }

  // ------------------------------------------------------------ the board

  /** One entry of the network input: 0 for an empty tile, otherwise the
      piece's value, negated when black is to move. */
  function TileValue(t: Tile, side: Side): int
  {
    match t
    case Empty => 0
    case Occupied(_, v) => if side == Black then -v else v
  }

  /** The `boardState` list: the 64 tiles in square order. */
  function BoardState(p: Pos): (r: seq<int>)
    ensures |r| == 64
  {
    seq(64, b requires 0 <= b < 64 => TileValue(p.tiles[b], p.toMove))
  }

  /** The same board seen with the other side to move is the negation; an
      empty tile reads 0 for either side. */
  lemma BoardStateSides(p: Pos, q: Pos)
    requires p.tiles == q.tiles && p.toMove != q.toMove
    ensures forall b :: 0 <= b < 64 ==> BoardState(p)[b] == -BoardState(q)[b]
    ensures forall b :: 0 <= b < 64 && p.tiles[b] == Empty ==> BoardState(p)[b] == 0
  {
  }

  // ----------------------------------------------------------- the labels

  /** The labels of the three training files. */
  datatype Label = PieceLabel | FileLabel | RankLabel

  /** `switch (getPieceType().toString())`: K, Q, R, B, N, P are 1 to 6. */
  function PieceCode(kind: Piece): (r: int)
    ensures 1 <= r <= 6
  {
    match kind
    case King => 1
    case Queen => 2
    case Rook => 3
    case Bishop => 4
    case Knight => 5
    case Pawn => 6
  }

  /** Distinct kinds get distinct codes. */
  lemma PieceCodeInjective(a: Piece, b: Piece)
    ensures PieceCode(a) == PieceCode(b) <==> a == b
  {
  }

  /** `BoardUtils.getPositionAtCoordinate`: square 0 is "a8", square 63
      is "h1", files run along each row. */
  function Coordinate(sq: Square): (r: string)
    ensures |r| == 2
  {
    ["abcdefgh"[sq % 8], "87654321"[sq / 8]]
  }

  /** `fileToNum`: the file letter "a".."h" as 1..8; any other text as 1. */
  function FileToNum(sq: Square): (r: int)
    ensures 1 <= r <= 8
  {
    var file := Coordinate(sq)[..1];
    if file == "a" then 1
    else if file == "b" then 2
    else if file == "c" then 3
    else if file == "d" then 4
    else if file == "e" then 5
    else if file == "f" then 6
    else if file == "g" then 7
    else if file == "h" then 8
    else 1
  }

  /** `Integer.parseInt` of the coordinate's second character. */
  function RankOf(sq: Square): (r: int)
  {
    var c := Coordinate(sq)[1];
    if IsDigit(c) then c as int - '0' as int else 0
  }

  /** File and rank name the square: each is in 1..8, and together they
      give the square back. */
  lemma FileAndRankIdentifySquare(sq: Square)
    ensures FileToNum(sq) == sq % 8 + 1
    ensures RankOf(sq) == 8 - sq / 8
    ensures sq == 8 * (8 - RankOf(sq)) + FileToNum(sq) - 1
  {
    var f := sq % 8;
    assert Coordinate(sq)[..1] == ["abcdefgh"[f]];
    assert Coordinate(sq)[1] == "87654321"[sq / 8];
  }

  /** The labels the three playouts record for the move played. */
  function PieceTag(m: Move): int { PieceCode(m.piece) }

  function FileTag(m: Move): int { FileToNum(m.destination) }

  function RankTag(m: Move): int { RankOf(m.destination) }

  function Tagger(which: Label): Move -> int
  {
    match which
    case PieceLabel => PieceTag
    case FileLabel => FileTag
    case RankLabel => RankTag
  }

  // ----------------------------------------------------------- the replay

  /** A legal move whose transition is done and whose notation is `token`. */
  predicate Plays(c: Child, token: string)
  {
    c.status == Done && c.move.notation == token
  }

  /** The scan of `getLegalMoves()`: the LAST done move matching the token
      wins; `None` when none matches. */
  function LastMatch(cs: seq<Child>, token: string): (r: Option<Child>)
    ensures r.None? <==> forall k :: 0 <= k < |cs| ==> !Plays(cs[k], token)
    ensures r.Some? ==> exists k :: (0 <= k < |cs| && cs[k] == r.value && Plays(cs[k], token)
      && (forall j :: k < j < |cs| ==> !Plays(cs[j], token)))
  {
    if |cs| == 0 then None
    else if Plays(cs[|cs| - 1], token) then Some(cs[|cs| - 1])
    else
      var r := LastMatch(cs[..|cs| - 1], token);
      assert forall k :: 0 <= k < |cs| - 1 ==> cs[..|cs| - 1][k] == cs[k];
      r
  }

  /** The pair written for one recorded ply. */
  datatype Sample = Sample(boardState: seq<int>, output: int)

  /** The side to move is the side the flags record. */
  predicate Records(w: Winner, side: Side)
  {
    (w == WhiteWon && side == White) || (w == BlackWon && side == Black)
  }

  /** The replay loop from token `i` on: a token without a matching move
      ends it with `None` (`goodData = false`); otherwise the pair is put
      under key `i` when the winner is to move, and the chosen move is
      made. */
  function Replay(p: Pos, moves: seq<string>, i: nat, w: Winner, tag: Move -> int, acc: map<int, Sample>): Option<map<int, Sample>>
    requires i <= |moves|
    decreases |moves| - i
  {
    if i == |moves| then Some(acc)
    else match LastMatch(p.children, moves[i])
      case None => None
      case Some(c) =>
        var acc' := if Records(w, p.toMove) then acc[i := Sample(BoardState(p), tag(c.move))] else acc;
        Replay(c.next, moves, i + 1, w, tag, acc')
  }

  /** The moves the game makes, or `None` if some token cannot be played. */
  function Walk(p: Pos, moves: seq<string>): (r: Option<seq<Child>>)
    ensures r.Some? ==> |r.value| == |moves|
    decreases |moves|
  {
    if |moves| == 0 then Some([])
    else match LastMatch(p.children, moves[0])
      case None => None
      case Some(c) =>
        match Walk(c.next, moves[1..])
        case None => None
        case Some(cs) => Some([c] + cs)
  }

  /** The position in which the `k`-th move of the walk is played. */
  function PositionAt(p: Pos, cs: seq<Child>, k: nat): Pos
    requires k <= |cs|
  {
    if k == 0 then p else cs[k - 1].next
  }

  /** Ply `k` of a walk whose first move is ply `offset` is recorded: the
      winner is to move in it. */
  predicate RecordedAt(p: Pos, cs: seq<Child>, offset: nat, w: Winner, k: int)
  {
    offset <= k < offset + |cs| && Records(w, PositionAt(p, cs, k - offset).toMove)
  }

  /** The pair for ply `k`: the board before the move and the move's label. */
  function SampleAt(p: Pos, cs: seq<Child>, offset: nat, tag: Move -> int, k: int): Sample
    requires offset <= k < offset + |cs|
  {
    Sample(BoardState(PositionAt(p, cs, k - offset)), tag(cs[k - offset].move))
  }

  /** The pairs a completed walk yields, keyed from `offset`: one for each
      ply whose side to move is the recorded winner. */
  function Samples(p: Pos, cs: seq<Child>, offset: nat, w: Winner, tag: Move -> int): map<int, Sample>
  {
    map k | offset <= k < offset + |cs| && RecordedAt(p, cs, offset, w, k) :: SampleAt(p, cs, offset, tag, k)
  }

  /** The replay writes exactly the walk's pairs, and discards the game
      exactly when the walk fails. */
  lemma {:induction false} ReplayFollowsWalk(p: Pos, moves: seq<string>, i: nat, w: Winner, tag: Move -> int, acc: map<int, Sample>)
    requires i <= |moves|
    requires forall k :: k in acc ==> k < i
    ensures Walk(p, moves[i..]).None? <==> Replay(p, moves, i, w, tag, acc).None?
    ensures Walk(p, moves[i..]).Some? ==>
      Replay(p, moves, i, w, tag, acc) == Some(acc + Samples(p, Walk(p, moves[i..]).value, i, w, tag))
    decreases |moves| - i
  {
    var rest := moves[i..];
    if i == |moves| {
      assert rest == [];
      assert Samples(p, [], i, w, tag) == map[];
      assert acc + map[] == acc;
    } else {
      assert rest[0] == moves[i] && rest[1..] == moves[i + 1..];
      match LastMatch(p.children, moves[i])
      case None =>
      case Some(c) =>
        var acc' := if Records(w, p.toMove) then acc[i := Sample(BoardState(p), tag(c.move))] else acc;
        ReplayFollowsWalk(c.next, moves, i + 1, w, tag, acc');
        if Walk(c.next, moves[i + 1..]).Some? {
          var cs' := Walk(c.next, moves[i + 1..]).value;
          assert Walk(p, rest) == Some([c] + cs');
          AccumulateStep(p, c, cs', i, w, tag, acc);
        }
    }
  }

  /** Recording ply `i` and then the rest of the walk is recording the
      whole walk. */
  lemma AccumulateStep(p: Pos, c: Child, cs': seq<Child>, i: nat, w: Winner, tag: Move -> int, acc: map<int, Sample>)
    requires forall k :: k in acc ==> k < i
    ensures var acc' := if Records(w, p.toMove) then acc[i := Sample(BoardState(p), tag(c.move))] else acc;
      acc' + Samples(c.next, cs', i + 1, w, tag) == acc + Samples(p, [c] + cs', i, w, tag)
  {
    var s' := Samples(c.next, cs', i + 1, w, tag);
    var s := Samples(p, [c] + cs', i, w, tag);
    SamplesStep(p, c, cs', i, w, tag);
    assert forall k :: k in s' ==> k > i;
    if Records(w, p.toMove) {
      var sample := Sample(BoardState(p), tag(c.move));
      assert acc[i := sample] + s' == acc + s'[i := sample];
    }
  }

  /** Peeling the first move off a walk. */
  lemma SamplesStep(p: Pos, c: Child, cs': seq<Child>, i: nat, w: Winner, tag: Move -> int)
    ensures var s' := Samples(c.next, cs', i + 1, w, tag);
      Samples(p, [c] + cs', i, w, tag)
      == if Records(w, p.toMove) then s'[i := Sample(BoardState(p), tag(c.move))] else s'
  {
    var cs := [c] + cs';
    var s' := Samples(c.next, cs', i + 1, w, tag);
    var s := Samples(p, cs, i, w, tag);
    var r := if Records(w, p.toMove) then s'[i := Sample(BoardState(p), tag(c.move))] else s';
    forall k ensures k in s <==> k in r {
      if i < k < i + |cs| {
        ShiftedPly(p, c, cs', i, w, tag, k);
      }
    }
    forall k | k in s ensures s[k] == r[k] {
      if k > i {
        ShiftedPly(p, c, cs', i, w, tag, k);
      }
    }
  }

  /** Ply `k` after the first is ply `k` of the rest of the walk. */
  lemma ShiftedPly(p: Pos, c: Child, cs': seq<Child>, i: nat, w: Winner, tag: Move -> int, k: int)
    requires i < k < i + 1 + |cs'|
    ensures RecordedAt(p, [c] + cs', i, w, k) == RecordedAt(c.next, cs', i + 1, w, k)
    ensures SampleAt(p, [c] + cs', i, tag, k) == SampleAt(c.next, cs', i + 1, tag, k)
  {
    var cs := [c] + cs';
    assert PositionAt(p, cs, k - i) == PositionAt(c.next, cs', k - i - 1);
    assert cs[k - i] == cs'[k - i - 1];
  }

  /** A playout either raises the exception, discards the game, or writes
      its pairs. */
  datatype Playout = Thrown | Discarded | Written(samples: map<int, Sample>)

  /** One `playOutPGNPiece` / `playOutPGNFile` / `playOutPGNRank` call,
      from the standard starting position `start`. */
  function PlayOut(pgn: string, start: Pos, which: Label): Playout
  {
    match ReadGame(pgn)
    case None => Thrown
    case Some(g) =>
      match Replay(start, g.moves, 0, g.winner, Tagger(which), map[])
      case None => Discarded
      case Some(m) => Written(m)
  }

  /** What a playout writes: nothing on an exception; nothing when some
      token cannot be played; otherwise one pair for each ply the winner
      moves in, keyed by the ply, with the board before the move and the
      label of the move made. */
  lemma PlayOutWritesWalk(pgn: string, start: Pos, which: Label)
    ensures ReadGame(pgn).None? <==> PlayOut(pgn, start, which).Thrown?
    ensures ReadGame(pgn).Some? ==>
      var g := ReadGame(pgn).value;
      (Walk(start, g.moves).None? <==> PlayOut(pgn, start, which).Discarded?)
      && (Walk(start, g.moves).Some? ==>
            PlayOut(pgn, start, which) == Written(Samples(start, Walk(start, g.moves).value, 0, g.winner, Tagger(which))))
  {
    if ReadGame(pgn).Some? {
      var g := ReadGame(pgn).value;
      ReplayFollowsWalk(start, g.moves, 0, g.winner, Tagger(which), map[]);
      assert g.moves[0..] == g.moves;
      if Walk(start, g.moves).Some? {
        var m := Samples(start, Walk(start, g.moves).value, 0, g.winner, Tagger(which));
        assert map[] + m == m;
      }
    }
  }

  /** A drawn game is replayed but writes no pair. */
  lemma DrawWritesNothing(pgn: string, start: Pos, which: Label)
    requires ReadGame(pgn).Some? && ReadGame(pgn).value.winner == NoWinner
    ensures PlayOut(pgn, start, which).Written? ==> PlayOut(pgn, start, which).samples == map[]
  {
    PlayOutWritesWalk(pgn, start, which);
  }

  /** The label does not change whether a game is written. */
  lemma SameFate(pgn: string, start: Pos, a: Label, b: Label)
    ensures PlayOut(pgn, start, a).Written? <==> PlayOut(pgn, start, b).Written?
  {
    if ReadGame(pgn).Some? {
      var g := ReadGame(pgn).value;
      ReplayFollowsWalk(start, g.moves, 0, g.winner, Tagger(a), map[]);
      ReplayFollowsWalk(start, g.moves, 0, g.winner, Tagger(b), map[]);
    }
  }

  /** Every recorded ply has the winner to move, and the three files agree
      on which plies they record and on the boards. */
  lemma LabelsShareTheWalk(pgn: string, start: Pos, a: Label, b: Label)
    ensures PlayOut(pgn, start, a).Thrown? <==> PlayOut(pgn, start, b).Thrown?
    ensures PlayOut(pgn, start, a).Discarded? <==> PlayOut(pgn, start, b).Discarded?
    ensures PlayOut(pgn, start, a).Written? && PlayOut(pgn, start, b).Written? ==>
      var ma, mb := PlayOut(pgn, start, a).samples, PlayOut(pgn, start, b).samples;
      ma.Keys == mb.Keys && forall k :: k in ma ==> ma[k].boardState == mb[k].boardState
  {
    PlayOutWritesWalk(pgn, start, a);
    PlayOutWritesWalk(pgn, start, b);
  }

  // ------------------------------------------------------------- the file

  /** One training file receiving one playout's pairs. */
  datatype Output = Output(which: Label, samples: map<int, Sample>)

  function Emitted(p: Playout, which: Label): seq<Output>
  {
    if p.Written? then [Output(which, p.samples)] else []
  }

  /** `main`'s loop over one file's games: each game is played out for the
      piece, file and rank labels; the first exception leaves the loop and
      skips the file's remaining games. */
  function TrainingData(games: seq<string>, start: Pos): seq<Output>
  {
    if |games| == 0 then []
    else if ReadGame(games[0]).None? then []
    else
      Emitted(PlayOut(games[0], start, PieceLabel), PieceLabel)
      + Emitted(PlayOut(games[0], start, FileLabel), FileLabel)
      + Emitted(PlayOut(games[0], start, RankLabel), RankLabel)
      + TrainingData(games[1..], start)
  }

  /** One PGN file, from its lines. */
  function TrainingFile(lines: seq<string>, start: Pos): seq<Output>
  {
    TrainingData(PgnParser.PgnStrings(lines), start)
  }

  /** A game whose text raises the exception ends the file: nothing after
      it is written. */
  lemma {:induction false} ExceptionEndsFile(before: seq<string>, bad: string, after: seq<string>, start: Pos)
    requires ReadGame(bad).None?
    ensures TrainingData(before + [bad] + after, start) == TrainingData(before, start)
  {
    if |before| == 0 {
      assert (before + [bad] + after)[0] == bad;
    } else {
      assert (before + [bad] + after)[1..] == before[1..] + [bad] + after;
      assert (before + [bad] + after)[0] == before[0];
      ExceptionEndsFile(before[1..], bad, after, start);
    }
  }

  lemma ThreeDivides(x: int)
    ensures (3 * x) % 3 == 0
  {
  }

  /** Each game contributes the three files' pairs together or not at all. */
  lemma {:induction false} OutputsComeInThrees(games: seq<string>, start: Pos)
    ensures |TrainingData(games, start)| % 3 == 0
  {
    if |games| > 0 && ReadGame(games[0]).Some? {
      OutputsComeInThrees(games[1..], start);
      var a := Emitted(PlayOut(games[0], start, PieceLabel), PieceLabel);
      var b := Emitted(PlayOut(games[0], start, FileLabel), FileLabel);
      var c := Emitted(PlayOut(games[0], start, RankLabel), RankLabel);
      var rest := TrainingData(games[1..], start);
      assert TrainingData(games, start) == a + b + c + rest;
      SameFate(games[0], start, PieceLabel, FileLabel);
      SameFate(games[0], start, PieceLabel, RankLabel);
      assert |a + b + c + rest| == 3 * |a| + |rest|;
      var n := |rest| / 3;
      assert |rest| == 3 * n;
      assert |a + b + c + rest| == 3 * (|a| + n);
      ThreeDivides(|a| + n);
    }
  }
}
