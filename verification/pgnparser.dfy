/** `PGNParser.getPGNString`: reads a PGN file line by line and cuts it into
    one move-text string per game. Header lines (anything with a bracket or
    a date) and empty lines are skipped; the other lines are collected, each
    with its line break; a line carrying a result ("1-0", "0-1", "1/2-1/2")
    that is not a `Result` header closes the current game. */
module PgnParser {
  import opened Common
  import opened PgnText

  /** The line is collected into the current game. */
  predicate Kept(line: string)
  {
    !Contains(line, "[") && !Contains(line, "]") && !Contains(line, "Date") && line != ""
  }

  /** The line closes the current game. */
  predicate EndsGame(line: string)
  {
    (Contains(line, "1-0") || Contains(line, "0-1") || Contains(line, "1/2-1/2")) && !Contains(line, "Result")
  }

  /** The reader's state: the games emitted so far and the `StringBuilder`
      collecting the next one. */
  datatype Reader = Reader(games: seq<string>, pending: string)

  /** One iteration of the read loop. */
  function Step(r: Reader, line: string): Reader
  {
    var sb := if Kept(line) then r.pending + line + "\n" else r.pending;
    if EndsGame(line) then Reader(r.games + [sb], "") else Reader(r.games, sb)
  }

  /** The reader after the given lines, read first to last. */
  function Read(lines: seq<string>): Reader
  {
    if |lines| == 0 then Reader([], "") else Step(Read(lines[..|lines| - 1]), lines[|lines| - 1])
  }

  /** The text that leaves no trace of headers: no bracket, no date. */
  predicate HeaderFree(g: string)
  {
    !Contains(g, "[") && !Contains(g, "]") && !Contains(g, "Date")
  }

  /** A collected text: header-free and made of whole lines. */
  predicate Collected(g: string)
  {
    HeaderFree(g) && (g == "" || g[|g| - 1] == '\n')
  }

  /** `getPGNString`: one string per game-closing line; the text after the
      last such line is never emitted. */
  function PgnStrings(lines: seq<string>): (games: seq<string>)
    ensures |games| == CountIf(lines, EndsGame)
    ensures forall k :: 0 <= k < |games| ==> Collected(games[k])
  {
    ReadInvariant(lines);
    Read(lines).games
  }

  /** The text of the kept lines, each followed by its line break. */
  function KeptText(lines: seq<string>): string
  {
    if |lines| == 0 then ""
    else
      var last := lines[|lines| - 1];
      KeptText(lines[..|lines| - 1]) + (if Kept(last) then last + "\n" else "")
  }

  lemma {:induction false} ReadInvariant(lines: seq<string>)
    ensures |Read(lines).games| == CountIf(lines, EndsGame)
    ensures Collected(Read(lines).pending)
    ensures forall k :: 0 <= k < |Read(lines).games| ==> Collected(Read(lines).games[k])
  {
    if |lines| > 0 {
      var init, last := lines[..|lines| - 1], lines[|lines| - 1];
      ReadInvariant(init);
      assert lines == init + [last];
      CountIfAppend(init, [last], EndsGame);
      var r := Read(init);
      if Kept(last) {
        CollectLine(r.pending, last);
      }
    }
  }

  /** Appending a kept line keeps the collected text header-free. */
  lemma CollectLine(pending: string, line: string)
    requires Collected(pending) && Kept(line)
    ensures Collected(pending + line + "\n")
  {
    CollectLineAvoids(pending, line, "[");
    CollectLineAvoids(pending, line, "]");
    CollectLineAvoids(pending, line, "Date");
  }

  lemma CollectLineAvoids(pending: string, line: string, t: string)
    requires '\n' !in t && |t| > 0
    requires pending == "" || pending[|pending| - 1] == '\n'
    requires !Contains(pending, t) && !Contains(line, t)
    ensures !Contains(pending + line + "\n", t)
  {
    if Contains(pending + line + "\n", t) {
      assert line + "\n" == line + "\n" + "";
      if pending == "" {
        assert pending + line + "\n" == line + "\n" + "";
        ContainsAcrossLineBreak(line, "", t);
      } else {
        var x := pending[..|pending| - 1];
        assert pending == x + "\n";
        assert pending + line + "\n" == x + "\n" + (line + "\n" + "");
        ContainsAcrossLineBreak(x, line + "\n" + "", t);
        if Contains(x, t) {
          ContainsInPrefix(x, "\n", t);
        } else {
          ContainsAcrossLineBreak(line, "", t);
        }
      }
    }
  }

  /** Nothing is lost or reordered: the emitted games followed by the text
      still pending are exactly the kept lines. */
  lemma {:induction false} GamesAreKeptText(lines: seq<string>)
    ensures Flatten(Read(lines).games) + Read(lines).pending == KeptText(lines)
  {
    if |lines| > 0 {
      var init, last := lines[..|lines| - 1], lines[|lines| - 1];
      GamesAreKeptText(init);
      var r := Read(init);
      var sb := if Kept(last) then r.pending + last + "\n" else r.pending;
      if EndsGame(last) {
        FlattenAppend(r.games, [sb]);
        assert Flatten([sb]) == sb by {
          assert [sb][1..] == [];
        }
      }
    }
  }

  /** Lines after the last game-closing line never reach the output. */
  lemma {:induction false} TrailingLinesIgnored(lines: seq<string>, tail: seq<string>)
    requires forall k :: 0 <= k < |tail| ==> !EndsGame(tail[k])
    ensures PgnStrings(lines + tail) == PgnStrings(lines)
  {
    if |tail| > 0 {
      var init := tail[..|tail| - 1];
      TrailingLinesIgnored(lines, init);
      assert (lines + tail)[..|lines + tail| - 1] == lines + init;
    } else {
      assert lines + tail == lines;
    }
  }

  /** A game-closing line that is not collected (it carries a bracket, say)
      still closes the game: whatever was pending is emitted, even nothing. */
  lemma UncollectedResultLine(lines: seq<string>, line: string)
    requires EndsGame(line) && !Kept(line)
    ensures PgnStrings(lines + [line]) == PgnStrings(lines) + [Read(lines).pending]
  {
    assert (lines + [line])[..|lines|] == lines;
  }
}
