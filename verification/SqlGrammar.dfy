/** An independent grammar of migration text, and the proof that the lexer of `split_sql`
    follows it: semicolons inside literals, quoted identifiers and dollar bodies never end a
    statement, all others do. */
module SqlGrammar {
  import opened SqlSplit
  import opened Text

  /** Pieces of a migration, independent of how they are lexed. A literal's body is its value:
      quotes in it are doubled when it is printed. `Money` is a dollar that opens nothing. */
  datatype Piece =
    | Plain(c: char)
    | Literal(value: string)
    | Ident(name: string)
    | Body(tag: string, body: string)
    | Money
    | End

  function Close(tag: string): string {
    "$" + tag + "$"
  }

  function Doubled(value: string): string {
    if value == [] then []
    else (if value[0] == '\'' then "''" else [value[0]]) + Doubled(value[1..])
  }

  function Print(p: Piece): (s: string)
    ensures s != []
  {
    match p
    case Plain(c) => [c]
    case Literal(value) => "'" + (Doubled(value) + "'")
    case Ident(name) => "\"" + (name + "\"")
    case Body(tag, body) => Close(tag) + (body + Close(tag))
    case Money => "$"
    case End => ";"
  }

  function PrintAll(ps: seq<Piece>): string {
    if ps == [] then [] else Print(ps[0]) + PrintAll(ps[1..])
  }

  /** `close` occurs in `s` at or after position 0 and before its last possible position. */
  predicate ClosesEarly(close: string, s: string) {
    exists i :: 0 <= i < |s| - |close| && close <= s[i..]
  }

  /** A dollar in front of the text opens a tag: tag characters and then another dollar. */
  ghost predicate OpensTag(alnum: char -> bool, rest: string) {
    exists n :: 0 <= n < |rest| && rest[n] == '$' && forall i :: 0 <= i < n ==> IsWord(alnum, rest[i])
  }

  /** The piece can stand in front of the text. */
  ghost predicate Fits(alnum: char -> bool, p: Piece, rest: string) {
    match p
    case Plain(c) => c != '\'' && c != '"' && c != '$' && c != ';'
    case Ident(name) => '"' !in name
    case Body(tag, body) =>
      && (forall i :: 0 <= i < |tag| ==> IsWord(alnum, tag[i]))
      && !ClosesEarly(Close(tag), body + Close(tag))
    case Money => !OpensTag(alnum, rest)
    case _ => true
  }

  ghost predicate WellFormed(alnum: char -> bool, ps: seq<Piece>) {
    ps == [] || (WellFormed(alnum, ps[1..]) && Fits(alnum, ps[0], PrintAll(ps[1..])))
  }

  /** The printed pieces grouped at the statement ends. */
  function Groups(ps: seq<Piece>): (groups: seq<string>)
    ensures groups != []
  {
    if ps == [] then [[]]
    else if ps[0].End? then [[]] + Groups(ps[1..])
    else Prepend(Print(ps[0]), Groups(ps[1..]))
  }

  // Reading what was printed

  lemma {:induction false} PrependTwice(x: string, y: string, segments: seq<string>)
    requires segments != []
    ensures Prepend(x, Prepend(y, segments)) == Prepend(x + y, segments)
  {
    assert x + (y + segments[0]) == (x + y) + segments[0];
  }

  lemma {:induction false} ReadChar(alnum: char -> bool, mode: Mode, c: char, x: string, rest: string, after: Mode,
                                    last: Mode)
    requires Next(alnum, mode, [c] + (x + rest)) == Text(1, after)
    requires Segments(alnum, after, x + rest) == Prepend(x, Segments(alnum, last, rest))
    requires Final(alnum, after, x + rest) == Final(alnum, last, rest)
    ensures Segments(alnum, mode, ([c] + x) + rest) == Prepend([c] + x, Segments(alnum, last, rest))
    ensures Final(alnum, mode, ([c] + x) + rest) == Final(alnum, last, rest)
  {
    ReadText(alnum, mode, [c], x + rest, after);
    PrependTwice([c], x, Segments(alnum, last, rest));
    assert ([c] + x) + rest == [c] + (x + rest);
  }

  lemma {:induction false} ReadLiteral(alnum: char -> bool, value: string, rest: string)
    ensures Segments(alnum, Single, (Doubled(value) + "'") + rest)
         == Prepend(Doubled(value) + "'", Segments(alnum, Top, rest))
    ensures Final(alnum, Single, (Doubled(value) + "'") + rest) == Final(alnum, Top, rest)
  {
    if value == [] {
      assert Doubled(value) + "'" == "'";
      ReadClosingQuote(alnum, rest);
    } else {
      ReadLiteral(alnum, value[1..], rest);
      var tail := Doubled(value[1..]) + "'";
      if value[0] == '\'' {
        assert Doubled(value) + "'" == "''" + tail;
        ReadDoubledQuote(alnum, tail, rest);
      } else {
        assert Doubled(value) + "'" == [value[0]] + tail;
        ReadChar(alnum, Single, value[0], tail, rest, Single, Top);
      }
    }
  }

  /** A closing quote followed by another literal is read as an escaped quote inside one
      longer literal; the statement boundaries are the same. */
  lemma {:induction false} ReadClosingQuote(alnum: char -> bool, rest: string)
    ensures Segments(alnum, Single, "'" + rest) == Prepend("'", Segments(alnum, Top, rest))
    ensures Final(alnum, Single, "'" + rest) == Final(alnum, Top, rest)
  {
    if rest != [] && rest[0] == '\'' {
      assert "'" + rest == "''" + rest[1..] && rest == "'" + rest[1..];
      ReadText(alnum, Single, "''", rest[1..], Single);
      ReadText(alnum, Top, "'", rest[1..], Single);
      PrependTwice("'", "'", Segments(alnum, Single, rest[1..]));
      assert "'" + "'" == "''";
    } else {
      ReadText(alnum, Single, "'", rest, Top);
    }
  }

  lemma {:induction false} ReadDoubledQuote(alnum: char -> bool, tail: string, rest: string)
    requires Segments(alnum, Single, tail + rest) == Prepend(tail, Segments(alnum, Top, rest))
    requires Final(alnum, Single, tail + rest) == Final(alnum, Top, rest)
    ensures Segments(alnum, Single, ("''" + tail) + rest) == Prepend("''" + tail, Segments(alnum, Top, rest))
    ensures Final(alnum, Single, ("''" + tail) + rest) == Final(alnum, Top, rest)
  {
    assert ("''" + tail) + rest == "''" + (tail + rest);
    ReadText(alnum, Single, "''", tail + rest, Single);
    PrependTwice("''", tail, Segments(alnum, Top, rest));
  }

  lemma {:induction false} ReadIdent(alnum: char -> bool, name: string, rest: string)
    requires '"' !in name
    ensures Segments(alnum, Double, (name + "\"") + rest) == Prepend(name + "\"", Segments(alnum, Top, rest))
    ensures Final(alnum, Double, (name + "\"") + rest) == Final(alnum, Top, rest)
  {
    if name == [] {
      assert name + "\"" == "\"";
      ReadText(alnum, Double, "\"", rest, Top);
    } else {
      ReadIdent(alnum, name[1..], rest);
      assert name + "\"" == [name[0]] + (name[1..] + "\"");
      ReadChar(alnum, Double, name[0], name[1..] + "\"", rest, Double, Top);
    }
  }

  /** In a dollar body the lexer closes exactly where the closing tag begins. */
  lemma {:induction false} ClosesAt(alnum: char -> bool, tag: string, s: string)
    requires s != []
    ensures Next(alnum, Dollar(tag), s) == if Close(tag) <= s then Text(|tag| + 2, Top) else Text(1, Dollar(tag))
  {
  }

  lemma {:induction false} ReadBody(alnum: char -> bool, tag: string, body: string, rest: string)
    requires !ClosesEarly(Close(tag), body + Close(tag))
    ensures Segments(alnum, Dollar(tag), (body + Close(tag)) + rest)
         == Prepend(body + Close(tag), Segments(alnum, Top, rest))
    ensures Final(alnum, Dollar(tag), (body + Close(tag)) + rest) == Final(alnum, Top, rest)
  {
    if body == [] {
      assert body + Close(tag) == Close(tag);
      ClosesAt(alnum, tag, Close(tag) + rest);
      ReadText(alnum, Dollar(tag), Close(tag), rest, Top);
    } else {
      var c, tail := body[0], body[1..] + Close(tag);
      assert body + Close(tag) == [c] + tail;
      LaterNotEarly(tag, body);
      ReadBody(alnum, tag, body[1..], rest);
      InsideBody(alnum, tag, body, rest);
      Associate([c], tail, rest);
      ReadChar(alnum, Dollar(tag), c, tail, rest, Dollar(tag), Top);
    }
  }

  lemma {:induction false} InsideBody(alnum: char -> bool, tag: string, body: string, rest: string)
    requires body != [] && !ClosesEarly(Close(tag), body + Close(tag))
    ensures Next(alnum, Dollar(tag), (body + Close(tag)) + rest) == Text(1, Dollar(tag))
  {
    NotYetClosed(tag, body, rest);
    ClosesAt(alnum, tag, (body + Close(tag)) + rest);
  }

  lemma {:induction false} NotYetClosed(tag: string, body: string, rest: string)
    requires body != [] && !ClosesEarly(Close(tag), body + Close(tag))
    ensures !(Close(tag) <= (body + Close(tag)) + rest)
  {
    var s := body + Close(tag);
    assert !(Close(tag) <= s[0..]) && s[0..] == s;
    assert (s + rest)[..|Close(tag)|] == s[..|Close(tag)|];
  }

  lemma {:induction false} LaterNotEarly(tag: string, body: string)
    requires body != [] && !ClosesEarly(Close(tag), body + Close(tag))
    ensures !ClosesEarly(Close(tag), body[1..] + Close(tag))
  {
    var s, t := body + Close(tag), body[1..] + Close(tag);
    assert s[1..] == t;
    forall i | 0 <= i < |t| - |Close(tag)|
      ensures !(Close(tag) <= t[i..])
    {
      assert s[i + 1..] == t[i..];
    }
  }

  lemma {:induction false} ReadTag(alnum: char -> bool, tag: string, rest: string)
    requires Alphabet(alnum) && forall i :: 0 <= i < |tag| ==> IsWord(alnum, tag[i])
    ensures Next(alnum, Top, Close(tag) + rest) == Text(|Close(tag)|, Dollar(tag))
  {
    var s := Close(tag) + rest;
    assert s[1..] == tag + "$" + rest;
    WordLenIs(alnum, s[1..], |tag|);
    assert s[1..1 + |tag|] == tag;
  }

  /** The lexer takes a dollar for plain text exactly when it opens no tag. */
  lemma {:induction false} LoneDollar(alnum: char -> bool, rest: string)
    requires Alphabet(alnum)
    ensures Next(alnum, Top, "$" + rest) == Text(1, Top) <==> !OpensTag(alnum, rest)
  {
    assert ("$" + rest)[1..] == rest;
    WordLenStops(alnum, rest);
    if OpensTag(alnum, rest) {
      var n :| 0 <= n < |rest| && rest[n] == '$' && forall i :: 0 <= i < n ==> IsWord(alnum, rest[i]);
      WordLenIs(alnum, rest, n);
    }
  }

  /** An opening followed by what it opens. */
  lemma {:induction false} ReadQuoted(alnum: char -> bool, open: string, mode: Mode, inner: string, rest: string)
    requires open != [] && Next(alnum, Top, open + (inner + rest)) == Text(|open|, mode)
    requires Segments(alnum, mode, inner + rest) == Prepend(inner, Segments(alnum, Top, rest))
    requires Final(alnum, mode, inner + rest) == Final(alnum, Top, rest)
    ensures Segments(alnum, Top, (open + inner) + rest) == Prepend(open + inner, Segments(alnum, Top, rest))
    ensures Final(alnum, Top, (open + inner) + rest) == Final(alnum, Top, rest)
  {
    assert (open + inner) + rest == open + (inner + rest);
    ReadText(alnum, Top, open, inner + rest, mode);
    PrependTwice(open, inner, Segments(alnum, Top, rest));
  }

  lemma {:induction false} ReadPiece(alnum: char -> bool, ps: seq<Piece>)
    requires Alphabet(alnum) && WellFormed(alnum, ps) && ps != [] && !ps[0].End?
    ensures var p, rest := Print(ps[0]), PrintAll(ps[1..]);
            && Segments(alnum, Top, p + rest) == Prepend(p, Segments(alnum, Top, rest))
            && Final(alnum, Top, p + rest) == Final(alnum, Top, rest)
  {
    var rest := PrintAll(ps[1..]);
    match ps[0]
    case Plain(c) => ReadText(alnum, Top, [c], rest, Top);
    case Money =>
      LoneDollar(alnum, rest);
      ReadText(alnum, Top, "$", rest, Top);
    case Literal(value) =>
      ReadLiteral(alnum, value, rest);
      ReadQuoted(alnum, "'", Single, Doubled(value) + "'", rest);
    case Ident(name) =>
      ReadIdent(alnum, name, rest);
      ReadQuoted(alnum, "\"", Double, name + "\"", rest);
    case Body(tag, body) =>
      ReadBody(alnum, tag, body, rest);
      ReadTag(alnum, tag, (body + Close(tag)) + rest);
      ReadQuoted(alnum, Close(tag), Dollar(tag), body + Close(tag), rest);
  }

  /** The lexer cuts printed pieces exactly at their statement ends, and ends outside quotes. */
  lemma {:induction false} LexerFollowsGrammar(alnum: char -> bool, ps: seq<Piece>)
    requires Alphabet(alnum) && WellFormed(alnum, ps)
    ensures Segments(alnum, Top, PrintAll(ps)) == Groups(ps)
    ensures Final(alnum, Top, PrintAll(ps)) == Top
  {
    if ps != [] {
      LexerFollowsGrammar(alnum, ps[1..]);
      if ps[0].End? {
        var s := ";" + PrintAll(ps[1..]);
        assert s[1..] == PrintAll(ps[1..]);
      } else {
        ReadPiece(alnum, ps);
      }
    }
  }

  // Every text that ends outside quotes is printed by some well-formed pieces

  lemma {:induction false} LiteralEnds(alnum: char -> bool, s: string) returns (value: string, rest: string)
    requires Final(alnum, Single, s) == Top
    ensures s == (Doubled(value) + "'") + rest && Final(alnum, Top, rest) == Top
    decreases |s|
  {
    var t := Next(alnum, Single, s);
    if t.mode == Top {
      value, rest := [], s[1..];
      assert Doubled(value) + "'" == "'";
    } else {
      var v, r := LiteralEnds(alnum, s[t.len..]);
      value, rest := [s[0]] + v, r;
      assert value[1..] == v;
      assert s[..t.len] == if s[0] == '\'' then "''" else [s[0]];
      assert Doubled(value) == s[..t.len] + Doubled(v);
      ConsQuoted(s, t.len, Doubled(v), rest);
    }
  }

  lemma {:induction false} ConsQuoted(s: string, n: nat, inner: string, rest: string)
    requires n <= |s| && s[n..] == (inner + "'") + rest
    ensures s == ((s[..n] + inner) + "'") + rest
  {
    assert s == s[..n] + s[n..];
  }

  lemma {:induction false} IdentEnds(alnum: char -> bool, s: string) returns (name: string, rest: string)
    requires Final(alnum, Double, s) == Top
    ensures s == (name + "\"") + rest && '"' !in name && Final(alnum, Top, rest) == Top
    decreases |s|
  {
    if s[0] == '"' {
      name, rest := [], s[1..];
      assert name + "\"" == "\"";
    } else {
      var n, r := IdentEnds(alnum, s[1..]);
      name, rest := [s[0]] + n, r;
      assert s == [s[0]] + s[1..];
    }
  }

  lemma {:induction false} BodyEnds(alnum: char -> bool, tag: string, s: string) returns (body: string, rest: string)
    requires Final(alnum, Dollar(tag), s) == Top
    ensures s == (body + Close(tag)) + rest && Final(alnum, Top, rest) == Top
    ensures !ClosesEarly(Close(tag), body + Close(tag))
    decreases |s|
  {
    ClosesAt(alnum, tag, s);
    if Close(tag) <= s {
      body, rest := [], s[|Close(tag)|..];
      assert body + Close(tag) == Close(tag);
    } else {
      var b, r := BodyEnds(alnum, tag, s[1..]);
      body, rest := [s[0]] + b, r;
      ConsBody(s[0], b, Close(tag), rest);
      assert s == [s[0]] + s[1..];
      StillNotEarly(tag, s[0], b, rest);
    }
  }

  lemma {:induction false} ConsBody(c: char, body: string, close: string, rest: string)
    ensures [c] + ((body + close) + rest) == (([c] + body) + close) + rest
  {
  }

  lemma {:induction false} StillNotEarly(tag: string, c: char, body: string, rest: string)
    requires !ClosesEarly(Close(tag), body + Close(tag))
    requires !(Close(tag) <= (([c] + body) + Close(tag)) + rest)
    ensures !ClosesEarly(Close(tag), ([c] + body) + Close(tag))
  {
    var s, t := ([c] + body) + Close(tag), body + Close(tag);
    forall i | 0 <= i < |s| - |Close(tag)|
      ensures !(Close(tag) <= s[i..])
    {
      if i > 0 {
        assert s[i..] == t[i - 1..];
      } else {
        assert s[i..] == s;
      }
    }
  }

  lemma {:induction false} PrintCons(p: Piece, ps: seq<Piece>)
    ensures PrintAll([p] + ps) == Print(p) + PrintAll(ps)
  {
  }

  lemma {:induction false} WellFormedCons(alnum: char -> bool, p: Piece, ps: seq<Piece>)
    requires WellFormed(alnum, ps) && Fits(alnum, p, PrintAll(ps))
    ensures WellFormed(alnum, [p] + ps)
  {
    assert ([p] + ps)[1..] == ps;
  }

  /** The first piece of a text that ends outside quotes, and the text after it. */
  lemma {:induction false} FirstPiece(alnum: char -> bool, s: string) returns (p: Piece, rest: string)
    requires Alphabet(alnum) && s != [] && Final(alnum, Top, s) == Top
    ensures s == Print(p) + rest && Final(alnum, Top, rest) == Top
    ensures Fits(alnum, p, rest)
  {
    var t := Next(alnum, Top, s);
    assert s == [s[0]] + s[1..];
    if t.Semi? {
      p, rest := End, s[1..];
    } else if t.mode == Single {
      var value;
      value, rest := LiteralEnds(alnum, s[1..]);
      p := Literal(value);
    } else if t.mode == Double {
      var name;
      name, rest := IdentEnds(alnum, s[1..]);
      p := Ident(name);
    } else if t.mode.Dollar? {
      p, rest := FirstBody(alnum, s);
    } else {
      p, rest := if s[0] == '$' then Money else Plain(s[0]), s[1..];
      LoneDollar(alnum, rest);
    }
  }

  lemma {:induction false} FirstBody(alnum: char -> bool, s: string) returns (p: Piece, rest: string)
    requires s != [] && Final(alnum, Top, s) == Top && Next(alnum, Top, s).Text? && Next(alnum, Top, s).mode.Dollar?
    ensures p.Body? && s == Print(p) + rest && Final(alnum, Top, rest) == Top
    ensures forall i :: 0 <= i < |p.tag| ==> IsWord(alnum, p.tag[i])
    ensures !ClosesEarly(Close(p.tag), p.body + Close(p.tag))
  {
    var t := Next(alnum, Top, s);
    OpeningTag(alnum, s, t);
    var tag := t.mode.tag;
    var body;
    body, rest := BodyEnds(alnum, tag, s[t.len..]);
    p := Body(tag, body);
    Associate(Close(tag), body + Close(tag), rest);
  }

  lemma {:induction false} OpeningTag(alnum: char -> bool, s: string, t: Token)
    requires s != [] && t == Next(alnum, Top, s) && t.Text? && t.mode.Dollar?
    ensures forall i :: 0 <= i < |t.mode.tag| ==> IsWord(alnum, t.mode.tag[i])
    ensures s == Close(t.mode.tag) + s[t.len..]
    ensures Final(alnum, Top, s) == Final(alnum, t.mode, s[t.len..])
  {
    WordLenStops(alnum, s[1..]);
  }

  lemma {:induction false} Tokenize(alnum: char -> bool, s: string) returns (ps: seq<Piece>)
    requires Alphabet(alnum) && Final(alnum, Top, s) == Top
    ensures WellFormed(alnum, ps) && PrintAll(ps) == s
    decreases |s|
  {
    if s == [] {
      ps := [];
    } else {
      var p, rest := FirstPiece(alnum, s);
      var more := Tokenize(alnum, rest);
      ps := [p] + more;
      PrintCons(p, more);
      WellFormedCons(alnum, p, more);
    }
  }

  /** The lexer leaves a text outside quotes exactly when the grammar produces it. */
  lemma {:induction false} GrammarExact(alnum: char -> bool, s: string)
    requires Alphabet(alnum)
    ensures Final(alnum, Top, s) == Top <==> exists ps :: WellFormed(alnum, ps) && PrintAll(ps) == s
  {
    if Final(alnum, Top, s) == Top {
      var ps := Tokenize(alnum, s);
    }
    if ps :| WellFormed(alnum, ps) && PrintAll(ps) == s {
      LexerFollowsGrammar(alnum, ps);
    }
  }
}
