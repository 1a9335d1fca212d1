/** The migration splitter `split_sql` of `services/core/src/lib.rs`: a lexer for quotes and
    tagged dollar quotes, its specification as a recursive scan, and what the scan promises.

    `alnum` stands for Rust's `char::is_alphanumeric`, of which only `Alphabet` is used. */
module SqlSplit {
  import opened Common
  import opened Text

  /** The characters of Unicode's White_Space property (`char::is_whitespace`). */
  predicate IsSpace(c: char) {
    || '\U{9}' <= c <= '\U{D}' || c == ' ' || c == '\U{85}' || c == '\U{A0}' || c == '\U{1680}'
    || '\U{2000}' <= c <= '\U{200A}' || c == '\U{2028}' || c == '\U{2029}' || c == '\U{202F}'
    || c == '\U{205F}' || c == '\U{3000}'
  }

  /** What is needed of `is_alphanumeric`: no delimiter and no white space is alphanumeric. */
  ghost predicate Alphabet(alnum: char -> bool) {
    && !alnum('\'') && !alnum('"') && !alnum('$') && !alnum(';')
    && forall c: char :: IsSpace(c) ==> !alnum(c)
  }

  predicate IsWord(alnum: char -> bool, c: char) {
    alnum(c) || c == '_'
  }

  // ------------------------------------------------------------ specification

  datatype Mode = Top | Single | Double | Dollar(tag: string)

  /** What the lexer reads next: `len` characters, after which it is in `mode`; or a semicolon
      that ends a statement. */
  datatype Token = Text(len: nat, mode: Mode) | Semi

  /** Number of leading tag characters. */
  function WordLen(alnum: char -> bool, s: string): (n: nat)
    ensures n <= |s|
  {
    if s == [] || !IsWord(alnum, s[0]) then 0 else 1 + WordLen(alnum, s[1..])
  }

  function Next(alnum: char -> bool, mode: Mode, s: string): (t: Token)
    requires s != []
    ensures t.Text? ==> 0 < t.len <= |s|
  {
    match mode
    case Dollar(tag) =>
      if s[0] == '$' && tag + "$" <= s[1..] then Text(|tag| + 2, Top) else Text(1, mode)
    case Single =>
      if s[0] != '\'' then Text(1, Single)
      else if |s| > 1 && s[1] == '\'' then Text(2, Single)
      else Text(1, Top)
    case Double =>
      Text(1, if s[0] == '"' then Top else Double)
    case Top =>
      if s[0] == '\'' then Text(1, Single)
      else if s[0] == '"' then Text(1, Double)
      else if s[0] == ';' then Semi
      else if s[0] == '$' then
        var n := WordLen(alnum, s[1..]);
        if 1 + n < |s| && s[1 + n] == '$' then Text(n + 2, Dollar(s[1..1 + n])) else Text(1, Top)
      else Text(1, Top)
  }

  /** The text cut at every semicolon that the lexer meets outside quotes. */
  function Segments(alnum: char -> bool, mode: Mode, s: string): (segments: seq<string>)
    ensures segments != []
    decreases |s|
  {
    if s == [] then [[]]
    else match Next(alnum, mode, s)
      case Semi => [[]] + Segments(alnum, Top, s[1..])
      case Text(len, mode') => Prepend(s[..len], Segments(alnum, mode', s[len..]))
  }

  /** The mode in which the lexer reaches the end of the text. */
  function Final(alnum: char -> bool, mode: Mode, s: string): Mode
    decreases |s|
  {
    if s == [] then mode
    else match Next(alnum, mode, s)
      case Semi => Final(alnum, Top, s[1..])
      case Text(len, mode') => Final(alnum, mode', s[len..])
  }

  function TrimStart(s: string): string {
    if s != [] && IsSpace(s[0]) then TrimStart(s[1..]) else s
  }

  function TrimEnd(s: string): string {
    if s != [] && IsSpace(s[|s| - 1]) then TrimEnd(s[..|s| - 1]) else s
  }

  function Trim(s: string): string {
    TrimEnd(TrimStart(s))
  }

  /** The trimmed, non-empty segments. */
  function Emit(segments: seq<string>): seq<string> {
    if segments == [] then []
    else
      var stmt := Trim(segments[0]);
      (if stmt == [] then [] else [stmt]) + Emit(segments[1..])
  }

  /** What `split_sql` returns for text without comment lines. */
  function Split(alnum: char -> bool, cleaned: string): seq<string> {
    Emit(Segments(alnum, Top, cleaned))
  }

  function Join(parts: seq<string>): string {
    if parts == [] then []
    else if |parts| == 1 then parts[0]
    else parts[0] + ";" + Join(parts[1..])
  }

  // ------------------------------------------------------------------ laws

  /** No text is lost: the segments, separated by the semicolons, are the input. */
  lemma {:induction false} SegmentsConserve(alnum: char -> bool, mode: Mode, s: string)
    ensures Join(Segments(alnum, mode, s)) == s
    decreases |s|
  {
    if s != [] {
      var t := Next(alnum, mode, s);
      if t.Semi? {
        SegmentsConserve(alnum, Top, s[1..]);
        JoinCons([], Segments(alnum, Top, s[1..]));
        SemiOnly(alnum, mode, s);
      } else {
        SegmentsConserve(alnum, t.mode, s[t.len..]);
        JoinPrepend(s[..t.len], Segments(alnum, t.mode, s[t.len..]));
      }
    }
  }

  lemma {:induction false} SemiOnly(alnum: char -> bool, mode: Mode, s: string)
    requires s != [] && Next(alnum, mode, s).Semi?
    ensures mode == Top && s == ";" + s[1..]
  {
  }

  lemma {:induction false} JoinCons(x: string, segments: seq<string>)
    requires segments != []
    ensures Join([x] + segments) == x + ";" + Join(segments)
  {
  }

  lemma {:induction false} JoinPrepend(x: string, segments: seq<string>)
    requires segments != []
    ensures Join(Prepend(x, segments)) == x + Join(segments)
  {
  }

  /** Dollar tags consist of tag characters. */
  predicate ValidMode(alnum: char -> bool, mode: Mode) {
    mode.Dollar? ==> forall i :: 0 <= i < |mode.tag| ==> IsWord(alnum, mode.tag[i])
  }

  /** A character that cannot continue a token begun before it. */
  predicate Neutral(alnum: char -> bool, c: char) {
    c != '\'' && c != '$' && !IsWord(alnum, c)
  }

  lemma {:induction false} WordLenIs(alnum: char -> bool, s: string, n: nat)
    requires n <= |s| && (forall i :: 0 <= i < n ==> IsWord(alnum, s[i]))
    requires n < |s| ==> !IsWord(alnum, s[n])
    ensures WordLen(alnum, s) == n
  {
    if n > 0 {
      WordLenIs(alnum, s[1..], n - 1);
    }
  }

  lemma {:induction false} WordLenStops(alnum: char -> bool, s: string)
    ensures forall i :: 0 <= i < WordLen(alnum, s) ==> IsWord(alnum, s[i])
    ensures WordLen(alnum, s) < |s| ==> !IsWord(alnum, s[WordLen(alnum, s)])
  {
    if s != [] && IsWord(alnum, s[0]) {
      WordLenStops(alnum, s[1..]);
    }
  }

  lemma {:induction false} NextValid(alnum: char -> bool, mode: Mode, s: string)
    requires s != [] && ValidMode(alnum, mode)
    ensures var t := Next(alnum, mode, s); t.Text? ==> ValidMode(alnum, t.mode)
  {
    WordLenStops(alnum, s[1..]);
  }

  /** Lookahead never reaches past a neutral character: what follows it is irrelevant. */
  lemma {:induction false} NextLocal(alnum: char -> bool, mode: Mode, s: string, tail: string)
    requires s != [] && ValidMode(alnum, mode) && tail != [] && Neutral(alnum, tail[0])
    ensures Next(alnum, mode, s + tail) == Next(alnum, mode, s)
  {
    var long := s + tail;
    assert long[0] == s[0];
    assert long[1..] == s[1..] + tail;
    match mode
    case Dollar(tag) => CloseLocal(alnum, tag, s[1..], tail);
    case Top =>
      WordLenStops(alnum, s[1..]);
      var n := WordLen(alnum, s[1..]);
      WordLenIs(alnum, long[1..], n);
      assert long[1..1 + n] == s[1..1 + n];
    case _ =>
  }

  lemma {:induction false} CloseLocal(alnum: char -> bool, tag: string, s: string, tail: string)
    requires ValidMode(alnum, Dollar(tag)) && tail != [] && Neutral(alnum, tail[0])
    ensures tag + "$" <= s + tail <==> tag + "$" <= s
  {
    var close, long := tag + "$", s + tail;
    assert |close| > |s| ==> close[|s|] != tail[0] && long[|s|] == tail[0];
  }

  // Composition and decomposition at semicolons

  lemma {:induction false} SemiNeutral(alnum: char -> bool)
    requires Alphabet(alnum)
    ensures Neutral(alnum, ';')
    ensures forall c: char :: IsSpace(c) ==> Neutral(alnum, c)
  {
  }

  lemma {:induction false} PrependConcat(x: string, a: seq<string>, b: seq<string>)
    requires a != []
    ensures Prepend(x, a + b) == Prepend(x, a) + b
  {
  }

  /** One lexer step over a known prefix. */
  lemma {:induction false} ReadText(alnum: char -> bool, mode: Mode, x: string, rest: string, after: Mode)
    requires x != [] && Next(alnum, mode, x + rest) == Text(|x|, after)
    ensures Segments(alnum, mode, x + rest) == Prepend(x, Segments(alnum, after, rest))
    ensures Final(alnum, mode, x + rest) == Final(alnum, after, rest)
  {
  }

  /** Text that ends outside quotes can be continued after a semicolon. */
  lemma {:induction false} Compose(alnum: char -> bool, mode: Mode, x: string, rest: string)
    requires Alphabet(alnum) && ValidMode(alnum, mode) && Final(alnum, mode, x) == Top
    ensures Segments(alnum, mode, x + (";" + rest)) == Segments(alnum, mode, x) + Segments(alnum, Top, rest)
    decreases |x|
  {
    var tail := ";" + rest;
    if x == [] {
      assert x + tail == tail && tail[1..] == rest;
    } else {
      SemiNeutral(alnum);
      NextLocal(alnum, mode, x, tail);
      NextValid(alnum, mode, x);
      var t := Next(alnum, mode, x);
      if t.Semi? {
        Compose(alnum, Top, x[1..], rest);
        ComposeSemi(alnum, mode, x, tail, Segments(alnum, Top, rest));
      } else {
        Compose(alnum, t.mode, x[t.len..], rest);
        ComposeText(alnum, mode, x, tail, Segments(alnum, Top, rest), t);
      }
    }
  }

  lemma {:induction false} ComposeSemi(alnum: char -> bool, mode: Mode, x: string, tail: string, more: seq<string>)
    requires x != [] && Next(alnum, mode, x) == Next(alnum, mode, x + tail) == Semi
    requires Segments(alnum, Top, x[1..] + tail) == Segments(alnum, Top, x[1..]) + more
    ensures Segments(alnum, mode, x + tail) == Segments(alnum, mode, x) + more
  {
    assert (x + tail)[1..] == x[1..] + tail;
    var first: seq<string>, segments := [[]], Segments(alnum, Top, x[1..]);
    assert first + (segments + more) == (first + segments) + more;
    assert Segments(alnum, mode, x) == first + segments;
    assert Segments(alnum, mode, x + tail) == first + (segments + more);
  }

  lemma {:induction false} ComposeText(alnum: char -> bool, mode: Mode, x: string, tail: string, more: seq<string>,
                                       t: Token)
    requires x != [] && Next(alnum, mode, x) == Next(alnum, mode, x + tail) == t && t.Text?
    requires Segments(alnum, t.mode, x[t.len..] + tail) == Segments(alnum, t.mode, x[t.len..]) + more
    ensures Segments(alnum, mode, x + tail) == Segments(alnum, mode, x) + more
  {
    var a, y := x[..t.len], x[t.len..];
    assert x == a + y;
    Associate(a, y, tail);
    ReadText(alnum, mode, a, y, t.mode);
    ReadText(alnum, mode, a, y + tail, t.mode);
    PrependConcat(a, Segments(alnum, t.mode, y), more);
  }

  /** One statement: no semicolon of it is outside quotes. */
  ghost predicate OneSegment(alnum: char -> bool, mode: Mode, s: string) {
    Segments(alnum, mode, s) == [s]
  }

  /** A segment that a semicolon ended, scanned by itself, is one segment and ends outside
      quotes; the other segments are those of the text after the semicolon. */
  lemma {:induction false} FirstSegment(alnum: char -> bool, mode: Mode, s: string)
    returns (first: string, rest: string)
    requires Alphabet(alnum) && ValidMode(alnum, mode) && |Segments(alnum, mode, s)| > 1
    ensures s == first + (";" + rest)
    ensures OneSegment(alnum, mode, first) && Final(alnum, mode, first) == Top
    ensures Segments(alnum, mode, s) == [first] + Segments(alnum, Top, rest)
    decreases |s|
  {
    NextValid(alnum, mode, s);
    var t := Next(alnum, mode, s);
    if t.Semi? {
      SemiOnly(alnum, mode, s);
      first, rest := [], s[1..];
    } else {
      var x;
      x, rest := FirstSegment(alnum, t.mode, s[t.len..]);
      first := s[..t.len] + x;
      FirstSegmentText(alnum, mode, s, t, x, rest);
    }
  }

  lemma {:induction false} FirstSegmentText(alnum: char -> bool, mode: Mode, s: string, t: Token, x: string,
                                            rest: string)
    requires Alphabet(alnum) && ValidMode(alnum, mode) && s != [] && t == Next(alnum, mode, s) && t.Text?
    requires s[t.len..] == x + (";" + rest)
    requires OneSegment(alnum, t.mode, x) && Final(alnum, t.mode, x) == Top
    requires Segments(alnum, t.mode, s[t.len..]) == [x] + Segments(alnum, Top, rest)
    ensures var first := s[..t.len] + x;
            && s == first + (";" + rest) && OneSegment(alnum, mode, first) && Final(alnum, mode, first) == Top
            && Segments(alnum, mode, s) == [first] + Segments(alnum, Top, rest)
  {
    var a := s[..t.len];
    var first := a + x;
    assert s == a + s[t.len..];
    Associate(a, x, ";" + rest);
    SemiNeutral(alnum);
    NextLocal(alnum, mode, first, ";" + rest);
    ReadText(alnum, mode, a, x, t.mode);
    ReadText(alnum, mode, a, s[t.len..], t.mode);
  }

  // White space

  function AppendLast(segments: seq<string>, c: char): seq<string>
    requires segments != []
  {
    segments[..|segments| - 1] + [segments[|segments| - 1] + [c]]
  }

  lemma {:induction false} AppendSpace(alnum: char -> bool, mode: Mode, s: string, c: char)
    requires Alphabet(alnum) && ValidMode(alnum, mode) && IsSpace(c)
    ensures Segments(alnum, mode, s + [c]) == AppendLast(Segments(alnum, mode, s), c)
    ensures Final(alnum, mode, s + [c]) == Final(alnum, mode, s)
    decreases |s|
  {
    if s == [] {
      assert s + [c] == [c] + [];
      ReadText(alnum, mode, [c], [], mode);
    } else {
      SemiNeutral(alnum);
      NextLocal(alnum, mode, s, [c]);
      NextValid(alnum, mode, s);
      var t := Next(alnum, mode, s);
      if t.Semi? {
        assert (s + [c])[1..] == s[1..] + [c];
        AppendSpace(alnum, Top, s[1..], c);
      } else {
        AppendSpace(alnum, t.mode, s[t.len..], c);
        AppendSpaceText(alnum, mode, s, c, t);
      }
    }
  }

  lemma {:induction false} AppendSpaceText(alnum: char -> bool, mode: Mode, s: string, c: char, t: Token)
    requires s != [] && Next(alnum, mode, s) == Next(alnum, mode, s + [c]) == t && t.Text?
    requires Segments(alnum, t.mode, s[t.len..] + [c]) == AppendLast(Segments(alnum, t.mode, s[t.len..]), c)
    requires Final(alnum, t.mode, s[t.len..] + [c]) == Final(alnum, t.mode, s[t.len..])
    ensures Segments(alnum, mode, s + [c]) == AppendLast(Segments(alnum, mode, s), c)
    ensures Final(alnum, mode, s + [c]) == Final(alnum, mode, s)
  {
    var a, y := s[..t.len], s[t.len..];
    assert s == a + y;
    Associate(a, y, [c]);
    ReadText(alnum, mode, a, y, t.mode);
    ReadText(alnum, mode, a, y + [c], t.mode);
    AppendLastPrepend(a, Segments(alnum, t.mode, y), c);
  }

  lemma {:induction false} AppendLastPrepend(x: string, segments: seq<string>, c: char)
    requires segments != []
    ensures Prepend(x, AppendLast(segments, c)) == AppendLast(Prepend(x, segments), c)
  {
    if |segments| == 1 {
      assert x + (segments[0] + [c]) == (x + segments[0]) + [c];
    }
  }

  lemma {:induction false} TrimEndScan(alnum: char -> bool, s: string)
    requires Alphabet(alnum) && OneSegment(alnum, Top, s)
    ensures OneSegment(alnum, Top, TrimEnd(s)) && Final(alnum, Top, TrimEnd(s)) == Final(alnum, Top, s)
  {
    if s != [] && IsSpace(s[|s| - 1]) {
      var n := |s| - 1;
      assert s == s[..n] + [s[n]];
      AppendSpace(alnum, Top, s[..n], s[n]);
      var shorter := Segments(alnum, Top, s[..n]);
      assert |shorter| == 1;
      assert AppendLast(shorter, s[n])[0] == shorter[0] + [s[n]];
      TrimEndScan(alnum, s[..n]);
    }
  }

  lemma {:induction false} TrimStartScan(alnum: char -> bool, s: string)
    requires Alphabet(alnum) && OneSegment(alnum, Top, s)
    ensures OneSegment(alnum, Top, TrimStart(s)) && Final(alnum, Top, TrimStart(s)) == Final(alnum, Top, s)
  {
    if s != [] && IsSpace(s[0]) {
      assert Next(alnum, Top, s) == Text(1, Top);
      var rest := Segments(alnum, Top, s[1..]);
      assert Prepend(s[..1], rest)[0] == s[..1] + rest[0];
      assert |rest| == 1 && rest[0] == s[1..];
      TrimStartScan(alnum, s[1..]);
    }
  }

  lemma {:induction false} TrimEndTrimmed(s: string)
    ensures TrimEnd(TrimEnd(s)) == TrimEnd(s) && TrimEnd(s) <= s
  {
    if s != [] && IsSpace(s[|s| - 1]) {
      TrimEndTrimmed(s[..|s| - 1]);
    }
  }

  lemma {:induction false} TrimStartTrimmed(s: string)
    ensures TrimStart(s) == [] || !IsSpace(TrimStart(s)[0])
    ensures |TrimStart(s)| <= |s|
  {
    if s != [] && IsSpace(s[0]) {
      TrimStartTrimmed(s[1..]);
    }
  }

  lemma {:induction false} TrimTrimmed(s: string)
    ensures Trim(Trim(s)) == Trim(s) && |Trim(s)| <= |s|
  {
    TrimStartTrimmed(s);
    TrimEndTrimmed(TrimStart(s));
    var t := Trim(s);
    assert t != [] ==> t[0] == TrimStart(s)[0];
    assert TrimStart(t) == t;
  }

  /** The 25 code points that Unicode gives the White_Space property. */
  const WHITE_SPACE: string :=
    "\t\n\U{B}\U{C}\r \U{85}\U{A0}\U{1680}\U{2000}\U{2001}\U{2002}\U{2003}\U{2004}\U{2005}\U{2006}\U{2007}"
    + "\U{2008}\U{2009}\U{200A}\U{2028}\U{2029}\U{202F}\U{205F}\U{3000}"

  /** White space is what Unicode says it is; no printing ASCII character is white space. */
  lemma {:induction false} WhiteSpaceIs(c: char)
    ensures |WHITE_SPACE| == 25 && (IsSpace(c) <==> c in WHITE_SPACE)
    ensures IsSpace(' ') && IsSpace('\t') && IsSpace('\r') && IsSpace('\n')
    ensures '!' <= c <= '~' ==> !IsSpace(c)
  {
  }

  predicate AllSpace(s: string) {
    forall i :: 0 <= i < |s| ==> IsSpace(s[i])
  }

  lemma {:induction false} TrimStartIs(s: string) returns (n: nat)
    ensures n <= |s| && AllSpace(s[..n]) && TrimStart(s) == s[n..]
    ensures n < |s| ==> !IsSpace(s[n])
  {
    if s != [] && IsSpace(s[0]) {
      var k := TrimStartIs(s[1..]);
      n := k + 1;
      assert s[..n] == [s[0]] + s[1..][..k];
    } else {
      n := 0;
    }
  }

  lemma {:induction false} TrimEndIs(s: string) returns (n: nat)
    ensures n <= |s| && AllSpace(s[n..]) && TrimEnd(s) == s[..n]
    ensures n > 0 ==> !IsSpace(s[n - 1])
  {
    if s != [] && IsSpace(s[|s| - 1]) {
      n := TrimEndIs(s[..|s| - 1]);
      assert s[n..] == s[..|s| - 1][n..] + [s[|s| - 1]];
    } else {
      n := |s|;
      assert s[..n] == s;
    }
  }

  /** Trimming takes off white space at both ends, and all of it. */
  lemma {:induction false} TrimIs(s: string) returns (lead: string, tail: string)
    ensures s == lead + Trim(s) + tail && AllSpace(lead) && AllSpace(tail)
    ensures Trim(s) != [] ==> !IsSpace(Trim(s)[0]) && !IsSpace(Trim(s)[|Trim(s)| - 1])
  {
    var i := TrimStartIs(s);
    var n := TrimEndIs(s[i..]);
    lead, tail := s[..i], s[i..][n..];
  }

  // Re-splitting

  /** A list of statements as the splitter emits it. */
  ghost predicate Statements(alnum: char -> bool, stmts: seq<string>) {
    && (forall i :: 0 <= i < |stmts| ==>
          stmts[i] != [] && Trim(stmts[i]) == stmts[i] && OneSegment(alnum, Top, stmts[i]))
    && (forall i :: 0 <= i < |stmts| - 1 ==> Final(alnum, Top, stmts[i]) == Top)
  }

  lemma {:induction false} TrimmedSegment(alnum: char -> bool, s: string)
    requires Alphabet(alnum) && OneSegment(alnum, Top, s)
    ensures OneSegment(alnum, Top, Trim(s)) && Final(alnum, Top, Trim(s)) == Final(alnum, Top, s)
    ensures Trim(Trim(s)) == Trim(s)
  {
    TrimStartScan(alnum, s);
    TrimEndScan(alnum, TrimStart(s));
    TrimTrimmed(s);
  }

  lemma {:induction false} SplitOne(alnum: char -> bool, s: string)
    requires Alphabet(alnum) && |Segments(alnum, Top, s)| == 1
    ensures OneSegment(alnum, Top, s)
    ensures Split(alnum, s) == if Trim(s) == [] then [] else [Trim(s)]
  {
    SegmentsConserve(alnum, Top, s);
    var segments := Segments(alnum, Top, s);
    assert segments == [s] && segments[1..] == [];
    assert Emit(segments[1..]) == [];
  }

  lemma {:induction false} SplitMore(alnum: char -> bool, s: string) returns (first: string, rest: string)
    requires Alphabet(alnum) && |Segments(alnum, Top, s)| > 1
    ensures |rest| < |s|
    ensures OneSegment(alnum, Top, first) && Final(alnum, Top, first) == Top
    ensures Split(alnum, s) == (if Trim(first) == [] then [] else [Trim(first)]) + Split(alnum, rest)
  {
    first, rest := FirstSegment(alnum, Top, s);
    assert ([first] + Segments(alnum, Top, rest))[1..] == Segments(alnum, Top, rest);
  }

  /** Every emitted statement is trimmed, non-empty and free of top-level semicolons, and all
      but the last end outside quotes. */
  lemma {:induction false} SplitStatements(alnum: char -> bool, s: string)
    requires Alphabet(alnum)
    ensures Statements(alnum, Split(alnum, s))
    decreases |s|
  {
    if |Segments(alnum, Top, s)| == 1 {
      SplitOne(alnum, s);
      TrimmedSegment(alnum, s);
    } else {
      var first, rest := SplitMore(alnum, s);
      TrimmedSegment(alnum, first);
      SplitStatements(alnum, rest);
      if Trim(first) == [] {
        assert Split(alnum, s) == Split(alnum, rest);
      } else {
        StatementsCons(alnum, Trim(first), Split(alnum, rest));
      }
    }
  }

  lemma {:induction false} StatementsCons(alnum: char -> bool, stmt: string, stmts: seq<string>)
    requires Statements(alnum, stmts) && stmt != [] && Trim(stmt) == stmt
    requires OneSegment(alnum, Top, stmt) && Final(alnum, Top, stmt) == Top
    ensures Statements(alnum, [stmt] + stmts)
  {
  }

  lemma {:induction false} StatementsTail(alnum: char -> bool, stmts: seq<string>)
    requires Statements(alnum, stmts) && |stmts| > 1
    ensures Statements(alnum, stmts[1..]) && OneSegment(alnum, Top, stmts[0]) && Final(alnum, Top, stmts[0]) == Top
  {
  }

  lemma {:induction false} JoinedSegments(alnum: char -> bool, stmts: seq<string>)
    requires Alphabet(alnum) && Statements(alnum, stmts) && stmts != []
    ensures Segments(alnum, Top, Join(stmts)) == stmts
  {
    if |stmts| > 1 {
      var first, rest := stmts[0], stmts[1..];
      StatementsTail(alnum, stmts);
      JoinedSegments(alnum, rest);
      Compose(alnum, Top, first, Join(rest));
      Associate(first, ";", Join(rest));
      assert stmts == [first] + rest;
    }
  }

  lemma {:induction false} EmitTrimmed(stmts: seq<string>)
    requires forall i :: 0 <= i < |stmts| ==> stmts[i] != [] && Trim(stmts[i]) == stmts[i]
    ensures Emit(stmts) == stmts
  {
    if stmts != [] {
      EmitTrimmed(stmts[1..]);
      assert stmts == [stmts[0]] + stmts[1..];
    }
  }

  /** Splitting is a fixed point: the statements joined with semicolons split into themselves,
      for every text, unterminated quotes included. */
  lemma {:induction false} ResplitFixpoint(alnum: char -> bool, s: string)
    requires Alphabet(alnum)
    ensures Split(alnum, Join(Split(alnum, s))) == Split(alnum, s)
  {
    var stmts := Split(alnum, s);
    SplitStatements(alnum, s);
    if stmts != [] {
      JoinedSegments(alnum, stmts);
    } else {
      var empty: seq<string> := [[]];
      assert Segments(alnum, Top, []) == empty && empty[1..] == [];
    }
    EmitTrimmed(stmts);
  }

  // The naive splitter of `crates/outbox/src/lib.rs`

  function NaiveSplit(cleaned: string): seq<string> {
    Emit(SplitOn(cleaned, ';'))
  }

  predicate PlainText(s: string) {
    forall i :: 0 <= i < |s| ==> s[i] != '\'' && s[i] != '"' && s[i] != '$'
  }

  lemma {:induction false} PlainSegments(alnum: char -> bool, s: string)
    requires PlainText(s)
    ensures Segments(alnum, Top, s) == SplitOn(s, ';')
  {
    if s != [] {
      PlainSegments(alnum, s[1..]);
      assert s[..1] == [s[0]];
    }
  }

  /** Without quotes and dollars the lexer is the naive splitter. */
  lemma {:induction false} PlainSplit(alnum: char -> bool, s: string)
    requires PlainText(s)
    ensures Split(alnum, s) == NaiveSplit(s)
  {
    PlainSegments(alnum, s);
  }

  // The code

  /** The lexer state the code keeps in three variables. */
  function ModeOf(dollarTag: Option<string>, inSingleQuote: bool, inDoubleQuote: bool): Mode {
    if dollarTag.Some? then Dollar(dollarTag.value)
    else if inSingleQuote then Single
    else if inDoubleQuote then Double
    else Top
  }

  /** What is left to return when `current` is the statement under way. */
  function Remaining(alnum: char -> bool, current: string, mode: Mode, s: string): seq<string> {
    Emit(Prepend(current, Segments(alnum, mode, s)))
  }

  /** What ending the statement under way adds to the list. */
  function Finished(current: string): seq<string> {
    var stmt := Trim(current);
    if stmt == [] then [] else [stmt]
  }

  /** Moving the text of one token into `current` changes nothing. */
  lemma {:induction false} MoveText(alnum: char -> bool, current: string, mode: Mode, s: string)
    requires s != [] && Next(alnum, mode, s).Text?
    ensures var t := Next(alnum, mode, s);
            Remaining(alnum, current, mode, s) == Remaining(alnum, current + s[..t.len], t.mode, s[t.len..])
  {
    var t := Next(alnum, mode, s);
    var rest := Segments(alnum, t.mode, s[t.len..]);
    Associate(current, s[..t.len], rest[0]);
    assert Prepend(current, Prepend(s[..t.len], rest)) == Prepend(current + s[..t.len], rest);
  }

  lemma {:induction false} EndStatement(alnum: char -> bool, current: string, s: string)
    requires s != [] && s[0] == ';'
    ensures Remaining(alnum, current, Top, s)
         == Finished(current) + Remaining(alnum, [], Top, s[1..])
  {
    var rest := Segments(alnum, Top, s[1..]);
    assert current + [] == current;
    assert Prepend(current, [[]] + rest) == [current] + rest;
    assert ([current] + rest)[1..] == rest;
    assert [] + rest[0] == rest[0];
    assert Prepend([], rest) == rest;
  }

  lemma {:induction false} EndOfText(alnum: char -> bool, current: string, mode: Mode)
    ensures Remaining(alnum, current, mode, []) == Finished(current)
  {
    assert current + [] == current;
    assert Prepend(current, [[]]) == [current];
    assert [current][1..] == [] && Emit([current][1..]) == [];
  }

  lemma {:induction false} StartOfText(alnum: char -> bool, s: string)
    ensures Split(alnum, s) == [] + Remaining(alnum, [], Top, s)
  {
    var segments := Segments(alnum, Top, s);
    assert [] + segments[0] == segments[0];
    assert Prepend([], segments) == segments;
  }

  lemma {:induction false} DropDrop(s: string, i: nat, k: nat)
    requires i + k <= |s|
    ensures s[i..][k..] == s[i + k..]
  {
  }

  /** The scan of `split_sql` over text without comment lines. */
  method ScanStatements(alnum: char -> bool, chars: seq<char>) returns (statements: seq<string>)
    ensures statements == Split(alnum, chars)
  {
    statements := [];
    var current: string := [];
    var dollarTag: Option<string> := None;
    var inSingleQuote, inDoubleQuote := false, false;
    var i := 0;
    ghost var rest := chars;
    StartOfText(alnum, chars);
    while i < |chars|
      invariant 0 <= i <= |chars| && rest == chars[i..]
      invariant Split(alnum, chars)
             == statements + Remaining(alnum, current, ModeOf(dollarTag, inSingleQuote, inDoubleQuote), rest)
    {
      var text, ended;
      text, ended, dollarTag, inSingleQuote, inDoubleQuote :=
        ReadToken(alnum, chars, i, dollarTag, inSingleQuote, inDoubleQuote, current);
      DropDrop(chars, i, |text|);
      if ended {
        Reassociate(statements, Finished(current), Remaining(alnum, [], Top, rest[1..]));
        statements, current := statements + Finished(current), [];
      } else {
        current := current + text;
      }
      i := i + |text|;
      rest := rest[|text|..];
    }
    EndOfText(alnum, current, ModeOf(dollarTag, inSingleQuote, inDoubleQuote));
    statements := statements + Finished(current);
  }

  lemma {:induction false} Reassociate(a: seq<string>, b: seq<string>, c: seq<string>)
    ensures a + (b + c) == (a + b) + c
  {
  }

  /** One iteration of the scan: the text it reads, whether that ended a statement, and the
      flags it leaves. */
  method ReadToken(alnum: char -> bool, chars: seq<char>, i: nat, tag: Option<string>, single: bool, double: bool,
                   ghost current: string)
    returns (text: string, ended: bool, dollarTag: Option<string>, inSingleQuote: bool, inDoubleQuote: bool)
    requires i < |chars|
    ensures 0 < |text| <= |chars| - i
    ensures ended ==> text == ";" && ModeOf(dollarTag, inSingleQuote, inDoubleQuote) == Top
    ensures Remaining(alnum, current, ModeOf(tag, single, double), chars[i..])
         == if ended then Finished(current) + Remaining(alnum, [], Top, chars[i..][1..])
            else Remaining(alnum, current + text, ModeOf(dollarTag, inSingleQuote, inDoubleQuote), chars[i..][|text|..])
  {
    if !tag.Some? && !single && !double && chars[i] == ';' {
      EndStatement(alnum, current, chars[i..]);
      return ";", true, None, false, false;
    }
    ended := false;
    text, dollarTag, inSingleQuote, inDoubleQuote := PushText(alnum, chars, i, tag, single, double);
    MoveText(alnum, current, ModeOf(tag, single, double), chars[i..]);
  }

  /** The iterations that only push text. */
  method PushText(alnum: char -> bool, chars: seq<char>, i: nat, tag: Option<string>, single: bool, double: bool)
    returns (text: string, dollarTag: Option<string>, inSingleQuote: bool, inDoubleQuote: bool)
    requires i < |chars| && Next(alnum, ModeOf(tag, single, double), chars[i..]).Text?
    ensures var t := Next(alnum, ModeOf(tag, single, double), chars[i..]);
            text == chars[i..][..t.len] && ModeOf(dollarTag, inSingleQuote, inDoubleQuote) == t.mode
  {
    var c := chars[i];
    dollarTag, inSingleQuote, inDoubleQuote := tag, single, double;
    if tag.Some? {
      if c == '$' && tag.value + "$" <= chars[i + 1..] {
        text := "$" + tag.value + "$";
        dollarTag, inSingleQuote, inDoubleQuote := None, false, false;
        assert chars[i..][1..] == chars[i + 1..];
      } else {
        text := [c];
        assert chars[i..][1..] == chars[i + 1..];
      }
      return;
    }
    if single {
      if c == '\'' && i + 1 < |chars| && chars[i + 1] == '\'' {
        text := "''";
        return;
      }
      text := [c];
      if c == '\'' {
        inSingleQuote, inDoubleQuote := false, false;
      }
      return;
    }
    if double {
      text := [c];
      inDoubleQuote := c != '"';
      return;
    }
    if c == '\'' {
      inSingleQuote := true;
      text := [c];
    } else if c == '"' {
      inDoubleQuote := true;
      text := [c];
    } else if c == '$' {
      var j := TagEnd(alnum, chars, i);
      if j < |chars| && chars[j] == '$' {
        dollarTag := Some(chars[i + 1..j]);
        text := "$" + chars[i + 1..j] + "$";
        assert chars[i..][1..j - i] == chars[i + 1..j] && chars[i..][j - i] == '$';
      } else {
        text := [c];
      }
    } else {
      text := [c];
    }
  }

  /** The inner loop over tag characters. */
  method TagEnd(alnum: char -> bool, chars: seq<char>, i: nat) returns (j: nat)
    requires i < |chars|
    ensures i < j <= |chars| && j == i + 1 + WordLen(alnum, chars[i..][1..])
  {
    j := i + 1;
    while j < |chars| && (alnum(chars[j]) || chars[j] == '_')
      invariant i < j <= |chars|
      invariant forall k :: i + 1 <= k < j ==> IsWord(alnum, chars[k])
    {
      j := j + 1;
    }
    WordLenIs(alnum, chars[i..][1..], j - i - 1);
  }
}
