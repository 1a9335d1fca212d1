/** The whole of `split_sql`: full-line `--` comments are stripped before the lexer runs, and
    the stripping does not know about quotes. */
module SqlMigration {
  import opened SqlGrammar
  import opened SqlSplit
  import opened Text

  function LineLen(s: string): (n: nat)
    ensures n <= |s|
  {
    if s == [] || s[0] == '\n' then 0 else 1 + LineLen(s[1..])
  }

  function StripCr(line: string): string {
    if line != [] && line[|line| - 1] == '\r' then line[..|line| - 1] else line
  }

  /** `str::lines`: a final line end is optional, and only a `\r` before `\n` is dropped. */
  function Lines(s: string): seq<string>
    decreases |s|
  {
    if s == [] then []
    else
      var n := LineLen(s);
      if n == |s| then [s] else [StripCr(s[..n])] + Lines(s[n + 1..])
  }

  predicate IsComment(line: string) {
    "--" <= TrimStart(line)
  }

  function Kept(lines: seq<string>): seq<string> {
    if lines == [] then []
    else (if IsComment(lines[0]) then [] else [lines[0]]) + Kept(lines[1..])
  }

  function JoinLines(lines: seq<string>): string {
    if lines == [] then []
    else if |lines| == 1 then lines[0]
    else lines[0] + ("\n" + JoinLines(lines[1..]))
  }

  function Strip(sql: string): string {
    JoinLines(Kept(Lines(sql)))
  }

  /** What `split_sql` returns. */
  function SplitSql(alnum: char -> bool, sql: string): seq<string> {
    Split(alnum, Strip(sql))
  }

  method SplitMigration(alnum: char -> bool, sql: string) returns (statements: seq<string>)
    ensures statements == SplitSql(alnum, sql)
  {
    statements := ScanStatements(alnum, Strip(sql));
  }

  /** Stripping comments and line ends shortens the text or leaves it alone. */
  lemma {:induction false} StripShortens(s: string)
    ensures |Strip(s)| <= |s|
    ensures |Strip(s)| == |s| ==> Strip(s) == s
    decreases |s|
  {
    if s != [] {
      var n := LineLen(s);
      if n == |s| {
        KeptOne(s);
      } else {
        var rest := s[n + 1..];
        FirstLine(s);
        StripShortens(rest);
        StripLine(s[..n], rest);
      }
    }
  }

  lemma {:induction false} StripLine(line: string, rest: string)
    requires |Strip(rest)| <= |rest| && (|Strip(rest)| == |rest| ==> Strip(rest) == rest)
    ensures var s := JoinLines(Kept([StripCr(line)] + Lines(rest)));
            |s| <= |line| + 1 + |rest| && (|s| == |line| + 1 + |rest| ==> s == line + ("\n" + rest))
  {
    KeptMore(StripCr(line), Lines(rest));
  }

  lemma {:induction false} FirstLine(s: string)
    requires LineLen(s) < |s|
    ensures var n := LineLen(s);
            && s == s[..n] + ("\n" + s[n + 1..])
            && Lines(s) == [StripCr(s[..n])] + Lines(s[n + 1..])
  {
    LineEnd(s);
  }

  lemma {:induction false} LineEnd(s: string)
    ensures LineLen(s) < |s| ==> s[LineLen(s)] == '\n'
  {
    if s != [] && s[0] != '\n' {
      LineEnd(s[1..]);
    }
  }

  lemma {:induction false} KeptOne(line: string)
    ensures JoinLines(Kept([line])) == if IsComment(line) then [] else line
  {
  }

  lemma {:induction false} KeptMore(line: string, lines: seq<string>)
    ensures JoinLines(Kept([line] + lines))
         == if IsComment(line) then JoinLines(Kept(lines))
            else if Kept(lines) == [] then line
            else line + ("\n" + JoinLines(Kept(lines)))
  {
    assert ([line] + lines)[1..] == lines;
    var kept := Kept([line] + lines);
    if IsComment(line) {
      assert kept == Kept(lines);
    } else {
      assert kept == [line] + Kept(lines) && kept[1..] == Kept(lines);
    }
  }

  lemma {:induction false} EmitShortens(segments: seq<string>)
    requires segments != []
    ensures |Join(Emit(segments))| <= |Join(segments)|
  {
    TrimTrimmed(segments[0]);
    var stmt, rest := Trim(segments[0]), segments[1..];
    var more := Emit(rest);
    if rest != [] {
      EmitShortens(rest);
    }
    if stmt == [] {
      assert Emit(segments) == more;
    } else if more == [] {
      assert Emit(segments) == [stmt];
    } else {
      assert Emit(segments) == [stmt] + more && ([stmt] + more)[1..] == more;
    }
  }

  /** Joining the statements gives no more text than there was. */
  lemma {:induction false} SplitShortens(alnum: char -> bool, s: string)
    ensures |Join(Split(alnum, s))| <= |s|
  {
    SegmentsConserve(alnum, Top, s);
    EmitShortens(Segments(alnum, Top, s));
  }

  // What the stripping keeps

  /** Every line feed after a carriage return stands alone. */
  function Unix(s: string): string {
    if s == [] then []
    else if |s| > 1 && s[0] == '\r' && s[1] == '\n' then Unix(s[1..])
    else [s[0]] + Unix(s[1..])
  }

  predicate HasComment(s: string) {
    exists line <- Lines(s) :: IsComment(line)
  }

  predicate HasCrLf(s: string) {
    exists i :: 0 <= i < |s| - 1 && s[i] == '\r' && s[i + 1] == '\n'
  }

  predicate EndsLine(s: string) {
    s != [] && s[|s| - 1] == '\n'
  }

  lemma {:induction false} LineHasNoFeed(s: string)
    ensures '\n' !in s[..LineLen(s)]
  {
    if s != [] && s[0] != '\n' {
      LineHasNoFeed(s[1..]);
    }
  }

  lemma {:induction false} LinesHaveNoFeed(s: string)
    ensures forall line <- Lines(s) :: '\n' !in line
    decreases |s|
  {
    if s != [] {
      LineHasNoFeed(s);
      var n := LineLen(s);
      if n < |s| {
        LinesHaveNoFeed(s[n + 1..]);
      } else {
        assert s[..n] == s;
      }
    }
  }

  lemma {:induction false} CutJoined(lines: seq<string>)
    requires lines != [] && forall line <- lines :: '\n' !in line
    ensures SplitOn(JoinLines(lines), '\n') == lines
  {
    if |lines| == 1 {
      Text.SplitOne(lines[0], '\n');
    } else {
      CutJoined(lines[1..]);
      SplitFirst(lines[0], '\n', JoinLines(lines[1..]));
    }
  }

  /** A comment line is white space and then two dashes. */
  lemma {:induction false} CommentIs(line: string)
    ensures IsComment(line) <==>
              exists i :: 0 <= i <= |line| && "--" <= line[i..] && forall k :: 0 <= k < i ==> IsSpace(line[k])
  {
    var n := TrimStartIs(line);
    if IsComment(line) {
      assert forall k :: 0 <= k < n ==> IsSpace(line[..n][k]);
    }
    if i :| 0 <= i <= |line| && "--" <= line[i..] && forall k :: 0 <= k < i ==> IsSpace(line[k]) {
      assert line[i] == line[i..][0] == '-';
      if i < n {
        assert IsSpace(line[..n][i]);
      }
    }
  }

  lemma {:induction false} KeptCons(line: string, lines: seq<string>)
    ensures Kept([line] + lines) == (if IsComment(line) then [] else [line]) + Kept(lines)
  {
    assert ([line] + lines)[1..] == lines;
  }

  /** Stripping looks at each line by itself. */
  lemma {:induction false} KeptAppend(a: seq<string>, b: seq<string>)
    ensures Kept(a + b) == Kept(a) + Kept(b)
  {
    if a == [] {
      assert a + b == b;
    } else {
      KeptAppend(a[1..], b);
      assert a == [a[0]] + a[1..];
      Associate([a[0]], a[1..], b);
      KeptCons(a[0], a[1..]);
      KeptCons(a[0], a[1..] + b);
      Associate(if IsComment(a[0]) then [] else [a[0]], Kept(a[1..]), Kept(b));
    }
  }

  lemma {:induction false} KeptFrom(lines: seq<string>)
    ensures forall line <- Kept(lines) :: line in lines && !IsComment(line)
    ensures (forall line <- lines :: !IsComment(line)) ==> Kept(lines) == lines
  {
    if lines != [] {
      KeptFrom(lines[1..]);
      assert lines == [lines[0]] + lines[1..];
    }
  }

  /** The lines of the stripped text are exactly the lines that are no comments, in order. */
  lemma {:induction false} StripKeepsLines(sql: string)
    ensures SplitOn(Strip(sql), '\n') == if Kept(Lines(sql)) == [] then [[]] else Kept(Lines(sql))
    ensures forall line <- Kept(Lines(sql)) :: line in Lines(sql) && !IsComment(line)
  {
    LinesHaveNoFeed(sql);
    KeptFrom(Lines(sql));
    if Kept(Lines(sql)) != [] {
      CutJoined(Kept(Lines(sql)));
    }
  }

  lemma {:induction false} UnixCons(c: char, s: string)
    ensures Unix([c] + s) == if c == '\r' && s != [] && s[0] == '\n' then Unix(s) else [c] + Unix(s)
  {
    assert ([c] + s)[1..] == s;
  }

  lemma {:induction false} UnixLine(line: string, rest: string)
    requires '\n' !in line
    ensures Unix(line + ("\n" + rest)) == StripCr(line) + ("\n" + Unix(rest))
  {
    if line == [] {
      UnixCons('\n', rest);
      assert line + ("\n" + rest) == "\n" + rest;
    } else {
      var c, more, tail, unix := line[0], line[1..], "\n" + rest, "\n" + Unix(rest);
      assert line == [c] + more;
      Associate([c], more, tail);
      UnixLine(more, rest);
      UnixCons(c, more + tail);
      StripCrCons(c, more);
      assert (more + tail)[0] == if more == [] then '\n' else more[0];
      if c == '\r' && more == [] {
        assert StripCr(more) == StripCr(line);
      } else {
        Associate([c], StripCr(more), unix);
      }
    }
  }

  lemma {:induction false} StripCrCons(c: char, line: string)
    ensures StripCr([c] + line) == if c == '\r' && line == [] then [] else [c] + StripCr(line)
  {
  }

  lemma {:induction false} UnixLast(line: string)
    requires '\n' !in line
    ensures Unix(line) == line
  {
    if line != [] {
      UnixLast(line[1..]);
    }
  }

  lemma {:induction false} LineOf(line: string, rest: string)
    requires '\n' !in line
    ensures Lines(line + ("\n" + rest)) == [StripCr(line)] + Lines(rest)
  {
    var s := line + ("\n" + rest);
    LineLenOf(line, rest);
    assert s[..|line|] == line && s[|line| + 1..] == rest;
  }

  lemma {:induction false} LineLenOf(line: string, rest: string)
    requires '\n' !in line
    ensures LineLen(line + ("\n" + rest)) == |line|
  {
    if line != [] {
      assert (line + ("\n" + rest))[1..] == line[1..] + ("\n" + rest);
      LineLenOf(line[1..], rest);
    }
  }

  ghost predicate Conserved(s: string) {
    Unix(s) == JoinLines(Lines(s)) + if EndsLine(s) then "\n" else []
  }

  /** `str::lines` loses carriage returns before line feeds and a final line feed only. */
  lemma {:induction false} LinesConserve(s: string)
    ensures Conserved(s)
    decreases |s|
  {
    if s != [] {
      var n := LineLen(s);
      LineHasNoFeed(s);
      if n == |s| {
        LastConserves(s);
      } else {
        FirstLine(s);
        LinesConserve(s[n + 1..]);
        LineConserves(s[..n], s[n + 1..]);
      }
    }
  }

  lemma {:induction false} LastConserves(s: string)
    requires s != [] && LineLen(s) == |s|
    ensures Conserved(s)
  {
    LineHasNoFeed(s);
    assert s[..|s|] == s;
    UnixLast(s);
    assert s[|s| - 1] != '\n';
    assert s + [] == s;
  }

  lemma {:induction false} LineConserves(line: string, rest: string)
    requires '\n' !in line && Conserved(rest)
    ensures Conserved(line + ("\n" + rest))
  {
    var s, tail := line + ("\n" + rest), if EndsLine(rest) then "\n" else [];
    UnixLine(line, rest);
    LineOf(line, rest);
    assert EndsLine(s) == (rest == [] || EndsLine(rest)) by {
      assert s[|s| - 1] == if rest == [] then '\n' else rest[|rest| - 1];
    }
    JoinLine(StripCr(line), Lines(rest));
    if rest == [] {
      assert "\n" + Unix(rest) == "\n";
    } else {
      Associate("\n", JoinLines(Lines(rest)), tail);
      Associate(StripCr(line), "\n" + JoinLines(Lines(rest)), tail);
    }
  }

  lemma {:induction false} JoinLine(line: string, lines: seq<string>)
    ensures JoinLines([line] + lines) == if lines == [] then line else line + ("\n" + JoinLines(lines))
  {
    assert ([line] + lines)[1..] == lines;
  }

  lemma {:induction false} UnixShortens(s: string)
    ensures |Unix(s)| <= |s|
    ensures Unix(s) == s <==> !HasCrLf(s)
    ensures Unix(s) != s ==> |Unix(s)| < |s|
  {
    if s != [] {
      UnixShortens(s[1..]);
      assert s == [s[0]] + s[1..];
      assert forall i :: 0 <= i < |s[1..]| ==> s[1..][i] == s[i + 1];
      if HasCrLf(s) && !(|s| > 1 && s[0] == '\r' && s[1] == '\n') {
        var i :| 0 <= i < |s| - 1 && s[i] == '\r' && s[i + 1] == '\n';
        assert s[1..][i - 1] == '\r' && s[1..][i] == '\n';
      }
    }
  }

  // Dashes: the splitter loses none, a stripped comment loses two

  function Dashes(s: string): nat {
    multiset(s)['-']
  }

  lemma {:induction false} DashesTrimStart(s: string)
    ensures Dashes(TrimStart(s)) == Dashes(s)
  {
    if s != [] && IsSpace(s[0]) {
      assert s == [s[0]] + s[1..];
      DashesTrimStart(s[1..]);
    }
  }

  lemma {:induction false} DashesTrimEnd(s: string)
    ensures Dashes(TrimEnd(s)) == Dashes(s)
  {
    if s != [] && IsSpace(s[|s| - 1]) {
      assert s == s[..|s| - 1] + [s[|s| - 1]];
      DashesTrimEnd(s[..|s| - 1]);
    }
  }

  lemma {:induction false} DashesEmit(segments: seq<string>)
    requires segments != []
    ensures Dashes(Join(Emit(segments))) == Dashes(Join(segments))
  {
    DashesTrimStart(segments[0]);
    DashesTrimEnd(TrimStart(segments[0]));
    var stmt, rest := Trim(segments[0]), segments[1..];
    var more := Emit(rest);
    if rest != [] {
      DashesEmit(rest);
    }
    if stmt == [] {
      assert Emit(segments) == more;
    } else if more == [] {
      assert Emit(segments) == [stmt];
    } else {
      assert Emit(segments) == [stmt] + more && ([stmt] + more)[1..] == more;
    }
  }

  lemma {:induction false} DashesSplit(alnum: char -> bool, s: string)
    ensures Dashes(Join(Split(alnum, s))) == Dashes(s)
  {
    SegmentsConserve(alnum, Top, s);
    DashesEmit(Segments(alnum, Top, s));
  }

  lemma {:induction false} DashesJoinLines(line: string, lines: seq<string>)
    ensures Dashes(JoinLines([line] + lines)) == Dashes(line) + Dashes(JoinLines(lines))
  {
    assert ([line] + lines)[1..] == lines;
  }

  lemma {:induction false} DashesComment(line: string)
    requires IsComment(line)
    ensures Dashes(line) >= 2
  {
    DashesTrimStart(line);
    var t := TrimStart(line);
    assert t == "--" + t[2..];
  }

  lemma {:induction false} DashesKeptLine(line: string, rest: seq<string>)
    ensures var kept, all := Dashes(JoinLines(Kept([line] + rest))), Dashes(JoinLines([line] + rest));
            var before := Dashes(JoinLines(rest)) - Dashes(JoinLines(Kept(rest)));
            all - kept == before + if IsComment(line) then Dashes(line) else 0
  {
    assert ([line] + rest)[1..] == rest;
    DashesJoinLines(line, rest);
    if !IsComment(line) {
      DashesJoinLines(line, Kept(rest));
    } else {
      assert Kept([line] + rest) == Kept(rest);
    }
  }

  lemma {:induction false} DashesKept(lines: seq<string>)
    ensures Dashes(JoinLines(Kept(lines))) <= Dashes(JoinLines(lines))
    ensures (exists line <- lines :: IsComment(line)) ==> Dashes(JoinLines(Kept(lines))) < Dashes(JoinLines(lines))
  {
    if lines != [] {
      var line, rest := lines[0], lines[1..];
      assert lines == [line] + rest;
      DashesKeptLine(line, rest);
      DashesKept(rest);
      if IsComment(line) {
        DashesComment(line);
      }
    }
  }

  lemma {:induction false} DashesUnix(s: string)
    ensures Dashes(Unix(s)) == Dashes(s)
  {
    if s != [] {
      assert s == [s[0]] + s[1..];
      DashesUnix(s[1..]);
    }
  }

  /** A comment costs dashes; without one the stripped text has the lines of the original. */
  lemma {:induction false} StripLoses(s: string)
    ensures HasComment(s) ==> Dashes(Strip(s)) < Dashes(Unix(s))
    ensures !HasComment(s) ==> Unix(s) == Strip(s) + if EndsLine(s) then "\n" else []
  {
    LinesConserve(s);
    DashesKept(Lines(s));
    KeptFrom(Lines(s));
  }

  // White space at the end of the text

  lemma {:induction false} TrimStartSpace(s: string, c: char)
    requires IsSpace(c)
    ensures TrimStart(s + [c]) == if TrimStart(s) == [] then [] else TrimStart(s) + [c]
  {
    if s == [] {
      assert s + [c] == [c] && [c][1..] == [];
    } else if IsSpace(s[0]) {
      assert (s + [c])[1..] == s[1..] + [c];
      TrimStartSpace(s[1..], c);
    }
  }

  lemma {:induction false} TrimSpace(s: string, c: char)
    requires IsSpace(c)
    ensures Trim(s + [c]) == Trim(s)
  {
    TrimStartSpace(s, c);
    var t := TrimStart(s);
    assert (t + [c])[..|t + [c]| - 1] == t;
  }

  lemma {:induction false} EmitSpace(segments: seq<string>, c: char)
    requires segments != [] && IsSpace(c)
    ensures Emit(AppendLast(segments, c)) == Emit(segments)
  {
    var more := AppendLast(segments, c);
    if |segments| == 1 {
      TrimSpace(segments[0], c);
    } else {
      EmitSpace(segments[1..], c);
      assert more[0] == segments[0] && more[1..] == AppendLast(segments[1..], c);
    }
  }

  lemma {:induction false} SplitIgnoresFinalFeed(alnum: char -> bool, s: string)
    requires Alphabet(alnum)
    ensures Split(alnum, s + "\n") == Split(alnum, s)
  {
    AppendSpace(alnum, Top, s, '\n');
    EmitSpace(Segments(alnum, Top, s), '\n');
  }

  // Main results

  /** What is split is the text itself, with its line ends made uniform, exactly when no line of it
      is a comment. */
  lemma {:induction false} NothingStrippedExactly(alnum: char -> bool, sql: string)
    requires Alphabet(alnum)
    ensures SplitSql(alnum, sql) == Split(alnum, Unix(sql)) <==> !HasComment(sql)
  {
    StripLoses(sql);
    if HasComment(sql) {
      DashesSplit(alnum, Strip(sql));
      DashesSplit(alnum, Unix(sql));
    } else if EndsLine(sql) {
      SplitIgnoresFinalFeed(alnum, Strip(sql));
    } else {
      assert Strip(sql) + [] == Strip(sql);
    }
  }

  /** The stripping leaves a text alone exactly when no line of it is a comment, no carriage
      return stands before a line feed, and it does not end in a line feed. */
  lemma {:induction false} UntouchedExactly(s: string)
    ensures Strip(s) == s <==> !HasComment(s) && !HasCrLf(s) && !EndsLine(s)
  {
    StripLoses(s);
    UnixShortens(s);
    DashesUnix(s);
    assert Strip(s) + [] == Strip(s);
  }

  /** Feeding the joined statements to the whole of `split_sql` again returns them exactly when
      no line of the joined text is a comment and no carriage return in it stands before a line
      feed. */
  lemma {:induction false} RejoinThroughStripping(alnum: char -> bool, sql: string)
    requires Alphabet(alnum)
    ensures var stmts := SplitSql(alnum, sql);
            SplitSql(alnum, Join(stmts)) == stmts <==> !HasComment(Join(stmts)) && !HasCrLf(Join(stmts))
  {
    var stmts := SplitSql(alnum, sql);
    var joined := Join(stmts);
    ResplitFixpoint(alnum, Strip(sql));
    StripShortens(joined);
    SplitShortens(alnum, Strip(joined));
    UntouchedExactly(joined);
    SplitStatements(alnum, Strip(sql));
    JoinEndsTrimmed(stmts);
  }

  lemma {:induction false} TrimmedEnd(s: string)
    requires s != [] && Trim(s) == s
    ensures !IsSpace(s[|s| - 1])
  {
    var t := TrimStart(s);
    TrimStartTrimmed(s);
    TrimEndTrimmed(t);
    assert t == s;
    TrimEndTrimmed(s[..|s| - 1]);
  }

  lemma {:induction false} JoinEndsTrimmed(stmts: seq<string>)
    requires forall i :: 0 <= i < |stmts| ==> stmts[i] != [] && Trim(stmts[i]) == stmts[i]
    ensures !EndsLine(Join(stmts))
  {
    if |stmts| == 1 {
      TrimmedEnd(stmts[0]);
    } else if |stmts| > 1 {
      JoinEndsTrimmed(stmts[1..]);
    }
  }

  /** The stripping can take a statement for a comment: the statement of ";--" starts its own
      line once it is joined again, and is gone. */
  lemma {:induction false} StrippingLosesStatement(alnum: char -> bool)
    requires Alphabet(alnum)
    ensures SplitSql(alnum, ";--") == ["--"]
    ensures SplitSql(alnum, Join(SplitSql(alnum, ";--"))) == []
  {
    var s: string := ";--";
    assert LineLen(s[3..]) == 0 && LineLen(s[2..]) == 1 && LineLen(s[1..]) == 2 && LineLen(s) == 3;
    assert TrimStart(s) == s;
    KeptOne(s);
    assert Strip(s) == s;
    DashesOnly(alnum);
    assert s[1..] == "--";
    var segments: seq<string> := [[], "--"];
    assert Segments(alnum, Top, s) == segments;
    assert segments[1..] == ["--"] && ["--"][1..] == [] && Emit(["--"][1..]) == [];
    assert Trim("--") == "--";
    assert Emit(["--"]) == ["--"];
    assert Trim([]) == [];
    assert Emit(segments) == ["--"];
    StripsDashes();
    EndOfText(alnum, [], Top);
  }

  predicate Quoted(p: Piece) {
    p.Literal? || p.Ident? || p.Body?
  }

  /** The stripping breaks every literal, quoted identifier and dollar body with a comment line
      inside that makes up a text, although the lexer would keep it whole. */
  lemma {:induction false} StrippingCutsQuoted(alnum: char -> bool, p: Piece)
    requires Alphabet(alnum) && Fits(alnum, p, []) && Quoted(p) && HasComment(Print(p))
    ensures Split(alnum, Print(p)) == [Print(p)] && SplitSql(alnum, Print(p)) != [Print(p)]
  {
    var sql := Print(p);
    OnePiece(alnum, p);
    QuotedEnds(p);
    AlreadyTrimmed(sql);
    assert Emit([sql]) == [sql];
    StripLoses(sql);
    DashesUnix(sql);
    DashesSplit(alnum, Strip(sql));
    assert Join([sql]) == sql;
  }

  lemma {:induction false} QuotedEnds(p: Piece)
    requires Quoted(p)
    ensures !IsSpace(Print(p)[0]) && !IsSpace(Print(p)[|Print(p)| - 1])
  {
  }

  lemma {:induction false} AlreadyTrimmed(s: string)
    requires s != [] && !IsSpace(s[0]) && !IsSpace(s[|s| - 1])
    ensures Trim(s) == s
  {
  }

  lemma {:induction false} CommentLine(before: string, line: string, after: string)
    requires '\n' !in before && '\n' !in line && IsComment(StripCr(line))
    ensures HasComment(before + ("\n" + (line + ("\n" + after))))
  {
    var rest := line + ("\n" + after);
    LineOf(line, after);
    LineOf(before, rest);
    assert Lines(rest)[0] == StripCr(line);
    assert Lines(before + ("\n" + rest))[1] == StripCr(line);
  }

  lemma {:induction false} DoubledPlain(value: string)
    requires '\'' !in value
    ensures Doubled(value) == value
  {
    if value != [] {
      DoubledPlain(value[1..]);
    }
  }

  /** There are such literals: any comment on a line of its own inside one. */
  lemma {:induction false} LiteralWithComment(alnum: char -> bool, line: string)
    requires '\n' !in line && '\'' !in line && IsComment(StripCr(line))
    ensures var p := Literal("\n" + (line + "\n")); Fits(alnum, p, []) && Quoted(p) && HasComment(Print(p))
  {
    var value := "\n" + (line + "\n");
    DoubledPlain(value);
    CommentLine("'", line, "'");
    assert "'" + (value + "'") == "'" + ("\n" + (line + ("\n" + "'")));
  }

  lemma {:induction false} OnePiece(alnum: char -> bool, p: Piece)
    requires Alphabet(alnum) && Fits(alnum, p, []) && !p.End?
    ensures Segments(alnum, Top, Print(p)) == [Print(p)]
  {
    var ps := [p];
    assert ps[1..] == [] && WellFormed(alnum, ps[1..]) && PrintAll(ps[1..]) == [] && Groups(ps[1..]) == [[]];
    assert PrintAll(ps) == Print(p) && Groups(ps) == [Print(p)];
    LexerFollowsGrammar(alnum, ps);
  }

  lemma {:induction false} DashesOnly(alnum: char -> bool)
    ensures Segments(alnum, Top, "--") == ["--"]
  {
    ReadText(alnum, Top, "-", [], Top);
    ReadText(alnum, Top, "-", "-", Top);
    assert "-" + [] == "-" && "-" + "-" == "--";
    assert Segments(alnum, Top, []) == [[]];
  }

  lemma {:induction false} StripsDashes()
    ensures Strip("--") == []
  {
  }
}
