/** When the comment stripping of `split_sql` keeps the promise that literals, quoted identifiers
    and dollar bodies are atomic: exactly when no comment line begins inside one of them. */
module SqlComments {
  import opened SqlGrammar
  import opened SqlMigration
  import opened SqlSplit

  /** A comment is a comment line that begins outside quotes; `mode` is the lexer's mode in front
      of it. */
  predicate IsOutside(mode: Mode, line: string) {
    IsComment(line) && mode == Top
  }

  function ModeAfter(alnum: char -> bool, mode: Mode, line: string): Mode {
    if IsOutside(mode, line) then Top else Final(alnum, mode, line)
  }

  /** The lines without the comments. */
  function KeptOutside(alnum: char -> bool, mode: Mode, lines: seq<string>): seq<string>
    decreases |lines|
  {
    if lines == [] then []
    else
      (if IsOutside(mode, lines[0]) then [] else [lines[0]])
      + KeptOutside(alnum, ModeAfter(alnum, mode, lines[0]), lines[1..])
  }

  /** The text without its comments. */
  function Outside(alnum: char -> bool, lines: seq<string>): string {
    JoinLines(KeptOutside(alnum, Top, lines))
  }

  /** Some line looks like a comment but begins inside quotes: the lexer, having read the text
      before it without its comments, is not at the top level. */
  ghost predicate CommentInside(alnum: char -> bool, lines: seq<string>) {
    exists i :: 0 <= i < |lines| && IsComment(lines[i]) && Final(alnum, Top, Outside(alnum, lines[..i])) != Top
  }

  // The mode in front of a line

  /** A line feed changes no mode: the next line is read in the mode that the last one left. */
  lemma {:induction false} FinalFeed(alnum: char -> bool, mode: Mode, x: string, rest: string)
    requires Alphabet(alnum) && ValidMode(alnum, mode)
    ensures Final(alnum, mode, x + ("\n" + rest)) == Final(alnum, Final(alnum, mode, x), rest)
    decreases |x|
  {
    var tail := "\n" + rest;
    if x == [] {
      assert x + tail == tail;
      FeedIsText(alnum, mode, rest);
    } else {
      SemiNeutral(alnum);
      NextLocal(alnum, mode, x, tail);
      NextValid(alnum, mode, x);
      var t := Next(alnum, mode, x);
      FinalNext(alnum, mode, x, tail);
      if t.Semi? {
        FinalFeed(alnum, Top, x[1..], rest);
      } else {
        FinalFeed(alnum, t.mode, x[t.len..], rest);
      }
    }
  }

  lemma {:induction false} FeedIsText(alnum: char -> bool, mode: Mode, rest: string)
    ensures Final(alnum, mode, "\n" + rest) == Final(alnum, mode, rest)
  {
    assert Next(alnum, mode, "\n" + rest) == Text(1, mode);
    ReadText(alnum, mode, "\n", rest, mode);
  }

  lemma {:induction false} FinalNext(alnum: char -> bool, mode: Mode, x: string, tail: string)
    requires x != [] && Next(alnum, mode, x + tail) == Next(alnum, mode, x)
    ensures var t := Next(alnum, mode, x);
            var n, next := if t.Semi? then 1 else t.len, if t.Semi? then Top else t.mode;
            && Final(alnum, mode, x) == Final(alnum, next, x[n..])
            && Final(alnum, mode, x + tail) == Final(alnum, next, x[n..] + tail)
  {
    var t := Next(alnum, mode, x);
    var n := if t.Semi? then 1 else t.len;
    assert (x + tail)[n..] == x[n..] + tail;
  }

  lemma {:induction false} FinalValid(alnum: char -> bool, mode: Mode, s: string)
    requires ValidMode(alnum, mode)
    ensures ValidMode(alnum, Final(alnum, mode, s))
    decreases |s|
  {
    if s != [] {
      NextValid(alnum, mode, s);
      var t := Next(alnum, mode, s);
      if t.Semi? {
        FinalValid(alnum, Top, s[1..]);
      } else {
        FinalValid(alnum, t.mode, s[t.len..]);
      }
    }
  }

  lemma {:induction false} ModeAfterValid(alnum: char -> bool, mode: Mode, line: string)
    requires ValidMode(alnum, mode)
    ensures ValidMode(alnum, ModeAfter(alnum, mode, line))
  {
    FinalValid(alnum, mode, line);
  }

  /** The mode after the lines, read one by one. */
  function EndMode(alnum: char -> bool, mode: Mode, lines: seq<string>): Mode
    decreases |lines|
  {
    if lines == [] then mode else EndMode(alnum, ModeAfter(alnum, mode, lines[0]), lines[1..])
  }

  /** Reading line by line is reading the joined lines. */
  lemma {:induction false} EndModeIsFinal(alnum: char -> bool, mode: Mode, lines: seq<string>)
    requires Alphabet(alnum) && ValidMode(alnum, mode)
    ensures EndMode(alnum, mode, lines) == Final(alnum, mode, JoinLines(KeptOutside(alnum, mode, lines)))
    decreases |lines|
  {
    if lines != [] {
      var line, rest, next := lines[0], lines[1..], ModeAfter(alnum, mode, lines[0]);
      var kept := KeptOutside(alnum, next, rest);
      ModeAfterValid(alnum, mode, line);
      EndModeIsFinal(alnum, next, rest);
      if IsOutside(mode, line) {
        assert KeptOutside(alnum, mode, lines) == kept;
      } else {
        JoinLine(line, kept);
        if kept != [] {
          FinalFeed(alnum, mode, line, JoinLines(kept));
        }
      }
    }
  }

  // Meeting a comment inside quotes

  predicate MeetsInside(alnum: char -> bool, mode: Mode, lines: seq<string>)
    decreases |lines|
  {
    lines != [] && (
      || (IsComment(lines[0]) && mode != Top)
      || MeetsInside(alnum, ModeAfter(alnum, mode, lines[0]), lines[1..]))
  }

  /** Line i is a comment and begins inside quotes. */
  predicate InsideAt(alnum: char -> bool, mode: Mode, lines: seq<string>, i: nat)
    requires i < |lines|
  {
    IsComment(lines[i]) && EndMode(alnum, mode, lines[..i]) != Top
  }

  lemma {:induction false} InsideNext(alnum: char -> bool, mode: Mode, lines: seq<string>, i: nat)
    requires 0 < i < |lines|
    ensures InsideAt(alnum, mode, lines, i) == InsideAt(alnum, ModeAfter(alnum, mode, lines[0]), lines[1..], i - 1)
  {
    assert lines[..i][1..] == lines[1..][..i - 1];
  }

  lemma {:induction false} MeetsWhere(alnum: char -> bool, mode: Mode, lines: seq<string>) returns (i: nat)
    requires MeetsInside(alnum, mode, lines)
    ensures i < |lines| && InsideAt(alnum, mode, lines, i)
    decreases |lines|
  {
    if IsComment(lines[0]) && mode != Top {
      i := 0;
    } else {
      var k := MeetsWhere(alnum, ModeAfter(alnum, mode, lines[0]), lines[1..]);
      i := k + 1;
      InsideNext(alnum, mode, lines, i);
    }
  }

  lemma {:induction false} MetAt(alnum: char -> bool, mode: Mode, lines: seq<string>, i: nat)
    requires i < |lines| && InsideAt(alnum, mode, lines, i)
    ensures MeetsInside(alnum, mode, lines)
    decreases i
  {
    if i > 0 {
      InsideNext(alnum, mode, lines, i);
      MetAt(alnum, ModeAfter(alnum, mode, lines[0]), lines[1..], i - 1);
    }
  }

  lemma {:induction false} MeetsExactly(alnum: char -> bool, lines: seq<string>)
    requires Alphabet(alnum)
    ensures MeetsInside(alnum, Top, lines) <==> CommentInside(alnum, lines)
  {
    forall i | 0 <= i < |lines|
      ensures EndMode(alnum, Top, lines[..i]) == Final(alnum, Top, Outside(alnum, lines[..i]))
    {
      EndModeIsFinal(alnum, Top, lines[..i]);
    }
    if MeetsInside(alnum, Top, lines) {
      var i := MeetsWhere(alnum, Top, lines);
      assert IsComment(lines[i]) && Final(alnum, Top, Outside(alnum, lines[..i])) != Top;
    }
    if CommentInside(alnum, lines) {
      var i :| 0 <= i < |lines| && IsComment(lines[i]) && Final(alnum, Top, Outside(alnum, lines[..i])) != Top;
      MetAt(alnum, Top, lines, i);
    }
  }

  // What the stripping takes too much

  lemma {:induction false} NoneInside(alnum: char -> bool, mode: Mode, lines: seq<string>)
    requires !MeetsInside(alnum, mode, lines)
    ensures KeptOutside(alnum, mode, lines) == Kept(lines)
    decreases |lines|
  {
    if lines != [] {
      NoneInside(alnum, ModeAfter(alnum, mode, lines[0]), lines[1..]);
    }
  }

  /** The first list of lines has fewer dashes, or no more. */
  ghost predicate Fewer(kept: seq<string>, whole: seq<string>, strictly: bool) {
    var a, b := Dashes(JoinLines(kept)), Dashes(JoinLines(whole));
    if strictly then a < b else a <= b
  }

  lemma {:induction false} FewerMore(line: string, kept: seq<string>, whole: seq<string>, strictly: bool)
    requires Fewer(kept, whole, strictly)
    ensures Fewer([line] + kept, [line] + whole, strictly)
    ensures IsComment(line) ==> Fewer(kept, [line] + whole, true)
  {
    DashesJoinLines(line, kept);
    DashesJoinLines(line, whole);
    if IsComment(line) {
      DashesComment(line);
    }
  }

  /** A comment line that is taken out of quotes costs its dashes. */
  lemma {:induction false} InsideLoses(alnum: char -> bool, mode: Mode, lines: seq<string>)
    ensures Fewer(Kept(lines), KeptOutside(alnum, mode, lines), MeetsInside(alnum, mode, lines))
    decreases |lines|
  {
    if lines != [] {
      var line, rest, next := lines[0], lines[1..], ModeAfter(alnum, mode, lines[0]);
      var kept, whole := Kept(rest), KeptOutside(alnum, next, rest);
      InsideLoses(alnum, next, rest);
      if IsOutside(mode, line) {
        assert Kept(lines) == kept && KeptOutside(alnum, mode, lines) == whole;
      } else {
        FewerMore(line, kept, whole, MeetsInside(alnum, next, rest));
        assert KeptOutside(alnum, mode, lines) == [line] + whole;
        assert Kept(lines) == if IsComment(line) then kept else [line] + kept;
      }
    }
  }

  // Main results

  /** `split_sql` splits the text without its comments exactly when no comment line begins inside
      quotes. Otherwise it also takes lines out of literals, identifiers or dollar bodies. */
  lemma {:induction false} StrippingHarmlessExactly(alnum: char -> bool, sql: string)
    requires Alphabet(alnum)
    ensures SplitSql(alnum, sql) == Split(alnum, Outside(alnum, Lines(sql))) <==> !CommentInside(alnum, Lines(sql))
  {
    var lines := Lines(sql);
    MeetsExactly(alnum, lines);
    if MeetsInside(alnum, Top, lines) {
      InsideLoses(alnum, Top, lines);
      DashesSplit(alnum, Strip(sql));
      DashesSplit(alnum, Outside(alnum, lines));
    } else {
      NoneInside(alnum, Top, lines);
    }
  }

  /** In terms of the grammar: whatever pieces the text without its comments consists of, the
      statements are those pieces grouped at the semicolons between them, every literal, identifier
      and dollar body whole, exactly when no comment line begins inside quotes. */
  lemma {:induction false} PiecesWholeExactly(alnum: char -> bool, sql: string, ps: seq<Piece>)
    requires Alphabet(alnum) && WellFormed(alnum, ps) && PrintAll(ps) == Outside(alnum, Lines(sql))
    ensures SplitSql(alnum, sql) == Emit(Groups(ps)) <==> !CommentInside(alnum, Lines(sql))
  {
    LexerFollowsGrammar(alnum, ps);
    StrippingHarmlessExactly(alnum, sql);
  }

  /** A text without comments inside quotes that ends outside them does consist of such pieces. */
  lemma {:induction false} PiecesExist(alnum: char -> bool, sql: string) returns (ps: seq<Piece>)
    requires Alphabet(alnum) && Final(alnum, Top, Outside(alnum, Lines(sql))) == Top
    ensures WellFormed(alnum, ps) && PrintAll(ps) == Outside(alnum, Lines(sql))
  {
    ps := Tokenize(alnum, Outside(alnum, Lines(sql)));
  }
}
