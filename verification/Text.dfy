/** Cutting text at a separator, as Rust's and JavaScript's `split` do. */
module Text {
  function Prepend(x: string, segments: seq<string>): seq<string>
    requires segments != []
  {
    [x + segments[0]] + segments[1..]
  }

  /** The text cut at every separator. */
  function SplitOn(s: string, sep: char): (parts: seq<string>)
    ensures parts != []
  {
    if s == [] then [[]]
    else if s[0] == sep then [[]] + SplitOn(s[1..], sep)
    else Prepend([s[0]], SplitOn(s[1..], sep))
  }

  lemma {:induction false} Associate<T>(a: seq<T>, b: seq<T>, c: seq<T>)
    ensures (a + b) + c == a + (b + c)
  {
  }

  lemma {:induction false} SplitCons(c: char, s: string, sep: char)
    ensures SplitOn([c] + s, sep) == if c == sep then [[]] + SplitOn(s, sep) else Prepend([c], SplitOn(s, sep))
  {
    assert ([c] + s)[1..] == s;
  }

  /** A text without separators is one part. */
  lemma {:induction false} SplitOne(a: string, sep: char)
    requires sep !in a
    ensures SplitOn(a, sep) == [a]
  {
    if a != [] {
      SplitOne(a[1..], sep);
      assert [a[0]] + a[1..] == a;
    }
  }

  /** In front of a separator it is the first part. */
  lemma {:induction false} SplitFirst(a: string, sep: char, b: string)
    requires sep !in a
    ensures SplitOn(a + ([sep] + b), sep) == [a] + SplitOn(b, sep)
  {
    if a == [] {
      assert a + ([sep] + b) == [sep] + b;
      SplitCons(sep, b, sep);
    } else {
      SplitFirst(a[1..], sep, b);
      assert [a[0]] + a[1..] == a;
      Associate([a[0]], a[1..], [sep] + b);
      SplitCons(a[0], a[1..] + ([sep] + b), sep);
    }
  }
}
