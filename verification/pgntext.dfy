/** The Java string operations the PGN pipeline relies on, on `seq<char>`:
    `contains`, `split` with a one-character separator, and the three
    `replaceAll` calls that clean a game's move text. */
module PgnText {
  import opened Common

  /** `t` occurs in `s` starting at index `i`. */
  predicate MatchesAt(s: string, t: string, i: int)
  {
    0 <= i && i + |t| <= |s| && s[i..i + |t|] == t
  }

  /** `s.contains(t)`. */
  predicate Contains(s: string, t: string)
  {
    exists i :: 0 <= i <= |s| - |t| && MatchesAt(s, t, i)
  }

  /** A match found in a prefix is a match of the whole string. */
  lemma ContainsInPrefix(x: string, y: string, t: string)
    requires Contains(x, t)
    ensures Contains(x + y, t)
  {
    var i :| 0 <= i <= |x| - |t| && MatchesAt(x, t, i);
    assert (x + y)[i..i + |t|] == x[i..i + |t|];
    assert MatchesAt(x + y, t, i);
  }

  /** A text without a line break cannot match across one: a match in
      `x + "\n" + y` lies wholly in `x` or wholly in `y`. */
  lemma ContainsAcrossLineBreak(x: string, y: string, t: string)
    requires '\n' !in t
    requires Contains(x + "\n" + y, t)
    ensures Contains(x, t) || Contains(y, t)
  {
    var s := x + "\n" + y;
    var i :| 0 <= i <= |s| - |t| && MatchesAt(s, t, i);
    if i + |t| <= |x| {
      assert x[i..i + |t|] == s[i..i + |t|];
      assert MatchesAt(x, t, i);
    } else if i > |x| {
      assert y[i - |x| - 1..i - |x| - 1 + |t|] == s[i..i + |t|];
      assert MatchesAt(y, t, i - |x| - 1);
    } else {
      // the match would cover the line break at index |x|
      MatchedCharacter(s, t, i, |x|);
      assert false;
    }
  }

  /** Each character of a match is the text's character at that place. */
  lemma MatchedCharacter(s: string, t: string, i: int, k: int)
    requires MatchesAt(s, t, i) && i <= k < i + |t|
    ensures t[k - i] == s[k]
  {
    assert s[i..i + |t|][k - i] == s[k];
  }

  // ---------------------------------------------------------------- split

  /** `s` cut at every occurrence of `sep`, keeping every piece, empty ones
      included: one piece more than there are separators. */
  function Pieces(s: string, sep: char): (r: seq<string>)
    ensures |r| >= 1
    ensures forall k :: 0 <= k < |r| ==> sep !in r[k]
  {
    if |s| == 0 then [""]
    else
      var rest := Pieces(s[1..], sep);
      if s[0] == sep then [""] + rest else [[s[0]] + rest[0]] + rest[1..]
  }

  /** `String.join`: the pieces with `sep` between each two. */
  function Join(ps: seq<string>, sep: char): string
  {
    if |ps| == 0 then ""
    else if |ps| == 1 then ps[0]
    else ps[0] + [sep] + Join(ps[1..], sep)
  }

  /** Cutting and re-joining gives the text back. */
  lemma {:induction false} JoinPieces(s: string, sep: char)
    ensures Join(Pieces(s, sep), sep) == s
  {
    if |s| > 0 {
      var rest := Pieces(s[1..], sep);
      JoinPieces(s[1..], sep);
      if s[0] == sep {
        assert Join([""] + rest, sep) == [sep] + Join(rest, sep) by {
          assert ([""] + rest)[1..] == rest;
        }
      } else if |rest| == 1 {
        assert Join(rest, sep) == rest[0];
      } else {
        var ps := [[s[0]] + rest[0]] + rest[1..];
        assert ps[1..] == rest[1..];
        assert Join(rest, sep) == rest[0] + [sep] + Join(rest[1..], sep);
      }
      assert s == [s[0]] + s[1..];
    }
  }

  /** Joining separator-free pieces and cutting again gives the pieces back. */
  lemma {:induction false} PiecesOfJoin(ps: seq<string>, sep: char)
    requires |ps| >= 1
    requires forall k :: 0 <= k < |ps| ==> sep !in ps[k]
    ensures Pieces(Join(ps, sep), sep) == ps
  {
    if |ps| == 1 {
      PiecesOfPlain(ps[0], sep);
    } else {
      PiecesOfJoin(ps[1..], sep);
      PiecesAfterPlain(ps[0], Join(ps[1..], sep), sep);
      assert [ps[0]] + ps[1..] == ps;
    }
  }

  /** A text without the separator is a single piece. */
  lemma {:induction false} PiecesOfPlain(a: string, sep: char)
    requires sep !in a
    ensures Pieces(a, sep) == [a]
  {
    if |a| > 0 {
      PiecesOfPlain(a[1..], sep);
      assert [a[0]] + a[1..] == a;
    }
  }

  /** A separator-free prefix followed by the separator is the first piece. */
  lemma {:induction false} PiecesAfterPlain(a: string, b: string, sep: char)
    requires sep !in a
    ensures Pieces(a + [sep] + b, sep) == [a] + Pieces(b, sep)
  {
    if |a| == 0 {
      assert (a + [sep] + b)[1..] == b;
    } else {
      PiecesAfterPlain(a[1..], b, sep);
      assert (a + [sep] + b)[1..] == a[1..] + [sep] + b;
      assert [a[0]] + a[1..] == a;
    }
  }

  /** `n` copies of `c`. */
  function Repeat(c: char, n: nat): (r: string)
    ensures |r| == n && forall k :: 0 <= k < n ==> r[k] == c
  {
    seq(n, _ => c)
  }

  /** Java's removal of trailing empty strings from a split result. */
  function DropTrailingEmpty(ps: seq<string>): (r: seq<string>)
    ensures |r| <= |ps| && r == ps[..|r|]
    ensures |r| == 0 || r[|r| - 1] != ""
    ensures forall k :: |r| <= k < |ps| ==> ps[k] == ""
  {
    if |ps| == 0 || ps[|ps| - 1] != "" then ps else DropTrailingEmpty(ps[..|ps| - 1])
  }

  lemma {:induction false} JoinSnocEmpty(ps: seq<string>, sep: char)
    requires |ps| >= 1
    ensures Join(ps + [""], sep) == Join(ps, sep) + [sep]
  {
    if |ps| > 1 {
      JoinSnocEmpty(ps[1..], sep);
      assert (ps + [""])[1..] == ps[1..] + [""];
    }
  }

  /** The dropped empty pieces account for trailing separators only. */
  lemma {:induction false} JoinDropTrailingEmpty(ps: seq<string>, sep: char)
    requires |ps| >= 1
    ensures var j := Join(DropTrailingEmpty(ps), sep);
      |j| <= |Join(ps, sep)| && Join(ps, sep) == j + Repeat(sep, |Join(ps, sep)| - |j|)
  {
    var last := |ps| - 1;
    if ps[last] != "" {
      assert Join(ps, sep) == Join(ps, sep) + Repeat(sep, 0);
    } else if |ps| == 1 {
      assert Join(ps, sep) == "";
    } else {
      var q := ps[..last];
      assert ps == q + [""];
      JoinSnocEmpty(q, sep);
      JoinDropTrailingEmpty(q, sep);
      var j := Join(DropTrailingEmpty(q), sep);
      assert Repeat(sep, |Join(q, sep)| - |j|) + [sep] == Repeat(sep, |Join(ps, sep)| - |j|);
    }
  }

  /** `s.split(String.valueOf(sep))`: the text unchanged when the separator
      does not occur, otherwise every piece with the trailing empty ones
      removed. */
  function JavaSplit(s: string, sep: char): (r: seq<string>)
    ensures sep !in s ==> r == [s]
    ensures forall k :: 0 <= k < |r| ==> sep !in r[k]
    ensures |r| == 0 || r[|r| - 1] != "" || s == ""
  {
    if sep !in s then [s] else DropTrailingEmpty(Pieces(s, sep))
  }

  /** Re-joining the split pieces gives the text back up to the trailing
      separators the split dropped. */
  lemma SplitRoundTrip(s: string, sep: char)
    ensures var j := Join(JavaSplit(s, sep), sep);
      |j| <= |s| && s == j + Repeat(sep, |s| - |j|)
  {
    if sep in s {
      JoinPieces(s, sep);
      JoinDropTrailingEmpty(Pieces(s, sep), sep);
    } else {
      assert s == s + Repeat(sep, 0);
    }
  }

  /** Splitting a join of non-empty separator-free pieces, at least two of
      them, gives the pieces back. */
  lemma SplitOfJoin(ps: seq<string>, sep: char)
    requires |ps| >= 2
    requires forall k :: 0 <= k < |ps| ==> sep !in ps[k] && ps[k] != ""
    ensures JavaSplit(Join(ps, sep), sep) == ps
  {
    PiecesOfJoin(ps, sep);
    var s := Join(ps, sep);
    assert s[|ps[0]|] == sep;
  }

  // ---------------------------------------------------------- replaceAll

  predicate IsDigit(c: char) { '0' <= c <= '9' }

  /** The length of the run of digits `s` starts with. */
  function DigitRun(s: string): (n: nat)
    ensures n <= |s|
    ensures forall k :: 0 <= k < n ==> IsDigit(s[k])
    ensures n == |s| || !IsDigit(s[n])
  {
    if |s| == 0 || !IsDigit(s[0]) then 0 else 1 + DigitRun(s[1..])
  }

  /** No digit is directly followed by a full stop. */
  predicate NoMoveNumber(s: string)
  {
    forall i :: 0 <= i < |s| - 1 ==> !(IsDigit(s[i]) && s[i + 1] == '.')
  }

  /** `replaceAll("(\\d?)(\\d+)\\.", "")`: every maximal run of digits that
      is followed by a full stop is removed together with the full stop; the
      scan resumes after it. */
  function StripMoveNumbers(s: string): (r: string)
    ensures NoMoveNumber(r)
    ensures |s| > 0 && !IsDigit(s[0]) ==> |r| > 0 && r[0] == s[0]
    decreases |s|
  {
    if |s| == 0 then ""
    else if !IsDigit(s[0]) then [s[0]] + StripMoveNumbers(s[1..])
    else
      var n := DigitRun(s);
      if n < |s| && s[n] == '.' then StripMoveNumbers(s[n + 1..])
      else s[..n] + StripMoveNumbers(s[n..])
  }

  /** A text without move numbers is left as it is; in particular the
      replacement is idempotent. */
  lemma {:induction false} StripLeavesCleanText(s: string)
    requires NoMoveNumber(s)
    ensures StripMoveNumbers(s) == s
    decreases |s|
  {
    if |s| > 0 {
      if !IsDigit(s[0]) {
        StripLeavesCleanText(s[1..]);
        assert [s[0]] + s[1..] == s;
      } else {
        var n := DigitRun(s);
        if n < |s| {
          assert s[n] != '.' by { assert !(IsDigit(s[n - 1]) && s[n] == '.'); }
          StripLeavesCleanText(s[n..]);
        }
        assert s[..n] + s[n..] == s;
      }
    }
  }

  /** Neither a digit nor a full stop: text the replacement never touches. */
  predicate IsPlain(c: char) { !IsDigit(c) && c != '.' }

  /** Every other character survives, in order. */
  lemma {:induction false} StripKeepsText(s: string)
    ensures Filter(StripMoveNumbers(s), IsPlain) == Filter(s, IsPlain)
    decreases |s|, 1
  {
    if |s| > 0 {
      if !IsDigit(s[0]) {
        StripKeepsText(s[1..]);
        assert StripMoveNumbers(s)[1..] == StripMoveNumbers(s[1..]);
      } else {
        StripKeepsDigits(s);
      }
    }
  }

  lemma {:induction false} StripKeepsDigits(s: string)
    requires |s| > 0 && IsDigit(s[0])
    ensures Filter(StripMoveNumbers(s), IsPlain) == Filter(s, IsPlain)
    decreases |s|, 0
  {
    var n := DigitRun(s);
    var a, b := s[..n], s[n..];
    assert s == a + b;
    if n < |s| && s[n] == '.' {
      var c := s[n + 1..];
      assert StripMoveNumbers(s) == StripMoveNumbers(c);
      StripKeepsText(c);
      assert s == s[..n + 1] + c;
      SkipUntouched(s[..n + 1], c);
    } else {
      assert StripMoveNumbers(s) == a + StripMoveNumbers(b);
      StripKeepsText(b);
      SkipUntouched(a, b);
      SkipUntouched(a, StripMoveNumbers(b));
    }
  }

  /** Digits and full stops in front contribute nothing to the kept text. */
  lemma {:induction false} SkipUntouched(a: string, b: string)
    requires forall k :: 0 <= k < |a| ==> !IsPlain(a[k])
    ensures Filter(a + b, IsPlain) == Filter(b, IsPlain)
  {
    if |a| == 0 {
      assert a + b == b;
    } else {
      SkipUntouched(a[1..], b);
      assert (a + b)[1..] == a[1..] + b;
    }
  }

  lemma StripIdempotent(s: string)
    ensures StripMoveNumbers(StripMoveNumbers(s)) == StripMoveNumbers(s)
  {
    StripLeavesCleanText(StripMoveNumbers(s));
  }

  /** `replaceAll("\n", " ")`. */
  function NewlinesToSpaces(s: string): (r: string)
    ensures |r| == |s| && '\n' !in r
    ensures forall k :: 0 <= k < |s| && s[k] != '\n' ==> r[k] == s[k]
  {
    if |s| == 0 then "" else [if s[0] == '\n' then ' ' else s[0]] + NewlinesToSpaces(s[1..])
  }

  /** `replaceAll("  ", " ")`: one left-to-right pass replacing each pair of
      spaces by one, so a run of three spaces leaves two. */
  function CollapsePairs(s: string): (r: string)
    ensures |r| <= |s|
    ensures forall k :: 0 <= k < |r| ==> r[k] in s
  {
    if |s| >= 2 && s[0] == ' ' && s[1] == ' ' then " " + CollapsePairs(s[2..])
    else if |s| == 0 then ""
    else [s[0]] + CollapsePairs(s[1..])
  }

  /** No two adjacent spaces. */
  predicate NoDoubleSpace(s: string)
  {
    forall i :: 0 <= i < |s| - 1 ==> !(s[i] == ' ' && s[i + 1] == ' ')
  }

  /** A text without a double space is left as it is. */
  lemma {:induction false} CollapseLeavesSingleSpaces(s: string)
    requires NoDoubleSpace(s)
    ensures CollapsePairs(s) == s
  {
    if |s| > 0 {
      CollapseLeavesSingleSpaces(s[1..]);
      assert [s[0]] + s[1..] == s;
    }
  }

  predicate IsNotSpace(c: char) { c != ' ' }

  /** Every character other than a space survives, in order. */
  lemma {:induction false} CollapseKeepsText(s: string)
    ensures Filter(CollapsePairs(s), IsNotSpace) == Filter(s, IsNotSpace)
  {
    var r := CollapsePairs(s);
    if |s| >= 2 && s[0] == ' ' && s[1] == ' ' {
      CollapseKeepsText(s[2..]);
      assert r[1..] == CollapsePairs(s[2..]);
      assert s[1..][1..] == s[2..];
    } else if |s| > 0 {
      CollapseKeepsText(s[1..]);
      assert r[1..] == CollapsePairs(s[1..]);
    }
  }

  /** The single pass is not a full collapse: three spaces leave two. */
  lemma ThreeSpacesLeaveTwo()
    ensures CollapsePairs("a   b") == "a  b"
    ensures !NoDoubleSpace(CollapsePairs("a   b"))
  {
    assert CollapsePairs("b") == "b";
    assert CollapsePairs(" b") == " b";
    assert "   b"[2..] == " b";
    assert CollapsePairs("   b") == "  b";
    assert "a   b"[1..] == "   b";
    var r := CollapsePairs("a   b");
    assert r[1] == ' ' && r[2] == ' ';
  }
}
