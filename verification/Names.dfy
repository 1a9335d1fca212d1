/** Printed names and their parsers: public ids (`crates/ids`) and event subjects
    (`crates/events`). */
module Names {
  import opened Common
  import opened Text

  // -------------------------------------------------------------- public ids

  /** A row of the prefix table. */
  datatype Entry = Entry(prefix: string, kind: nat)

  /** Printing and parsing of UUIDs, of which only the round trip is used. */
  datatype UuidCodec<!U> = UuidCodec(show: U -> string, parse: string -> Option<U>)

  ghost predicate Lawful<U(!new)>(codec: UuidCodec<U>) {
    forall u :: codec.parse(codec.show(u)) == Some(u)
  }

  datatype IdError = Empty | InvalidPrefix | InvalidUuid

  datatype PublicId<U> = PublicId(kind: nat, uuid: U)

  /** Every prefix ends in its only underscore, and no prefix occurs twice. */
  ghost predicate PrefixTable(table: seq<Entry>) {
    && (forall e <- table ::
          e.prefix != [] && forall i :: 0 <= i < |e.prefix| ==> (e.prefix[i] == '_' <==> i == |e.prefix| - 1))
    && (forall a <- table, b <- table :: a.prefix == b.prefix ==> a == b)
  }

  function Show<U>(codec: UuidCodec<U>, e: Entry, uuid: U): string {
    e.prefix + codec.show(uuid)
  }

  /** The scan of the table: the first prefix that fits decides. */
  function Scan<U>(codec: UuidCodec<U>, table: seq<Entry>, s: string): Result<PublicId<U>, IdError> {
    if table == [] then Err(InvalidPrefix)
    else if table[0].prefix <= s then
      match codec.parse(s[|table[0].prefix|..])
      case Some(u) => Ok(PublicId(table[0].kind, u))
      case None => Err(InvalidUuid)
    else Scan(codec, table[1..], s)
  }

  function FromStr<U>(codec: UuidCodec<U>, table: seq<Entry>, s: string): Result<PublicId<U>, IdError> {
    if s == [] then Err(Empty) else Scan(codec, table, s)
  }

  /** At most one prefix of the table fits a text. */
  lemma {:induction false} PrefixUnique(table: seq<Entry>, a: Entry, b: Entry, s: string)
    requires PrefixTable(table) && a in table && b in table && a.prefix <= s && b.prefix <= s
    ensures a == b
  {
    var m, n := |a.prefix| - 1, |b.prefix| - 1;
    assert a.prefix[m] == s[m] && b.prefix[n] == s[n];
    assert m == n;
    assert a.prefix == s[..m + 1] && b.prefix == s[..n + 1];
  }

  lemma {:induction false} ScanFinds<U>(codec: UuidCodec<U>, all: seq<Entry>, table: seq<Entry>, e: Entry, s: string)
    requires PrefixTable(all) && e in table && e.prefix <= s
    requires forall x <- table :: x in all
    ensures Scan(codec, table, s)
         == match codec.parse(s[|e.prefix|..]) case Some(u) => Ok(PublicId(e.kind, u)) case None => Err(InvalidUuid)
  {
    assert table[0] in table;
    if table[0].prefix <= s {
      PrefixUnique(all, table[0], e, s);
    } else {
      ScanFinds(codec, all, table[1..], e, s);
    }
  }

  /** Printing an id of any kind and parsing it back returns it, whatever the table's order. */
  lemma {:induction false} IdRoundTrip<U(!new)>(codec: UuidCodec<U>, table: seq<Entry>, e: Entry, uuid: U)
    requires Lawful(codec) && PrefixTable(table) && e in table
    ensures FromStr(codec, table, Show(codec, e, uuid)) == Ok(PublicId(e.kind, uuid))
  {
    var s := Show(codec, e, uuid);
    ScanFinds(codec, table, table, e, s);
    assert s[|e.prefix|..] == codec.show(uuid);
  }

  lemma {:induction false} ScanMisses<U>(codec: UuidCodec<U>, table: seq<Entry>, s: string)
    requires forall e <- table :: !(e.prefix <= s)
    ensures Scan(codec, table, s) == Err(InvalidPrefix)
  {
    if table != [] {
      assert table[0] in table;
      ScanMisses(codec, table[1..], s);
    }
  }

  /** The order of the table changes no result, not even an error. */
  lemma {:induction false} TableOrderIrrelevant<U>(codec: UuidCodec<U>, a: seq<Entry>, b: seq<Entry>, s: string)
    requires PrefixTable(a) && PrefixTable(b) && forall e :: e in a <==> e in b
    ensures FromStr(codec, a, s) == FromStr(codec, b, s)
  {
    if e :| e in a && e.prefix <= s {
      ScanFinds(codec, a, a, e, s);
      ScanFinds(codec, b, b, e, s);
    } else {
      ScanMisses(codec, a, s);
      ScanMisses(codec, b, s);
    }
  }

  /** Which error an id gets that cannot be parsed. */
  lemma {:induction false} IdErrors<U>(codec: UuidCodec<U>, table: seq<Entry>, s: string)
    requires PrefixTable(table)
    ensures FromStr(codec, table, s) == Err(Empty) <==> s == []
    ensures FromStr(codec, table, s) == Err(InvalidPrefix) <==> s != [] && forall e <- table :: !(e.prefix <= s)
    ensures FromStr(codec, table, s) == Err(InvalidUuid) <==>
              exists e <- table :: e.prefix <= s && codec.parse(s[|e.prefix|..]).None?
  {
    if e :| e in table && e.prefix <= s {
      ScanFinds(codec, table, table, e, s);
      forall x | x in table && x.prefix <= s
        ensures x == e
      {
        PrefixUnique(table, x, e, s);
      }
    } else {
      ScanMisses(codec, table, s);
    }
  }

  // ---------------------------------------------------------------- subjects

  const U32_MAX := 0xFFFF_FFFF

  function Digit(d: nat): char
    requires d < 10
  {
    "0123456789"[d]
  }

  function DigitValue(c: char): Option<nat> {
    if '0' <= c <= '9' then Some((c - '0') as int) else None
  }

  /** Decimal digits of a number, as `Display` prints them. */
  function Decimal(n: nat): (s: string)
    ensures s != []
  {
    if n < 10 then [Digit(n)] else Decimal(n / 10) + [Digit(n % 10)]
  }

  /** The value of a digit string; None if some character is no digit. */
  function Value(s: string): Option<nat> {
    if s == [] then Some(0)
    else match (Value(s[..|s| - 1]), DigitValue(s[|s| - 1]))
      case (Some(v), Some(d)) => Some(10 * v + d)
      case _ => None
  }

  /** `str::parse::<u32>`: an optional plus, at least one digit, no overflow. */
  function ParseU32(s: string): Option<nat> {
    var digits := if s != [] && s[0] == '+' then s[1..] else s;
    if digits == [] then None
    else match Value(digits)
      case Some(v) => if v <= U32_MAX then Some(v) else None
      case None => None
  }

  lemma {:induction false} DigitRoundTrip(d: nat)
    requires d < 10
    ensures DigitValue(Digit(d)) == Some(d) && Digit(d) != '+' && Digit(d) != '.'
  {
  }

  lemma {:induction false} DecimalRoundTrip(n: nat)
    ensures Value(Decimal(n)) == Some(n)
    ensures forall i :: 0 <= i < |Decimal(n)| ==> Decimal(n)[i] != '.' && Decimal(n)[i] != '+'
  {
    if n < 10 {
      DigitRoundTrip(n);
      assert [Digit(n)][..0] == [];
    } else {
      DecimalRoundTrip(n / 10);
      DigitRoundTrip(n % 10);
      var s := Decimal(n);
      assert s[..|s| - 1] == Decimal(n / 10);
    }
  }

  function JoinDots(parts: seq<string>): string
    requires parts != []
  {
    if |parts| == 1 then parts[0] else parts[0] + ("." + JoinDots(parts[1..]))
  }

  function Dots(s: string): nat {
    if s == [] then 0 else (if s[0] == '.' then 1 else 0) + Dots(s[1..])
  }

  lemma {:induction false} SplitCounts(s: string)
    ensures |SplitOn(s, '.')| == Dots(s) + 1
  {
    if s != [] {
      SplitCounts(s[1..]);
    }
  }

  lemma {:induction false} DotsConcat(a: string, b: string)
    ensures Dots(a + b) == Dots(a) + Dots(b)
  {
    if a == [] {
      assert a + b == b;
    } else {
      DotsConcat(a[1..], b);
      assert (a + b)[1..] == a[1..] + b;
    }
  }

  lemma {:induction false} NoDots(s: string)
    requires Dots(s) == 0
    ensures '.' !in s
  {
    if s != [] {
      NoDots(s[1..]);
    }
  }

  lemma {:induction false} SplitJoin(parts: seq<string>)
    requires parts != [] && forall i :: 0 <= i < |parts| ==> Dots(parts[i]) == 0
    ensures SplitOn(JoinDots(parts), '.') == parts
  {
    NoDots(parts[0]);
    if |parts| == 1 {
      SplitOne(parts[0], '.');
      assert parts == [parts[0]];
    } else {
      SplitFirst(parts[0], '.', JoinDots(parts[1..]));
      SplitJoin(parts[1..]);
      assert parts == [parts[0]] + parts[1..];
    }
  }

  datatype Subject = Subject(org: string, context: string, aggregate: string, event: string, version: nat)

  function Parts(s: Subject): seq<string> {
    ["companyos", s.org, s.context, s.aggregate, s.event, "v" + Decimal(s.version)]
  }

  function EventSubject(s: Subject): string {
    JoinDots(Parts(s))
  }

  function ParseSubject(text: string): Result<Subject, string> {
    var parts := SplitOn(text, '.');
    if |parts| != 6 || parts[0] != "companyos" then Err(text)
    else if !("org_" <= parts[1]) then Err(text)
    else if parts[5] == [] || parts[5][0] != 'v' then Err(text)
    else match ParseU32(parts[5][1..])
      case Some(version) => Ok(Subject(parts[1], parts[2], parts[3], parts[4], version))
      case None => Err(text)
  }

  /** What the types of the other arguments guarantee: a public organization id, one of the
      fixed context names, a u32. */
  predicate Typed(s: Subject) {
    "org_" <= s.org && Dots(s.org) == 0 && Dots(s.context) == 0 && s.version <= U32_MAX
  }

  lemma {:induction false} DotFree(s: string)
    requires forall i :: 0 <= i < |s| ==> s[i] != '.'
    ensures Dots(s) == 0
  {
    if s != [] {
      DotFree(s[1..]);
    }
  }

  lemma {:induction false} VersionPart(version: nat)
    requires version <= U32_MAX
    ensures var v := "v" + Decimal(version);
            Dots(v) == 0 && v[1..] == Decimal(version) && ParseU32(v[1..]) == Some(version)
  {
    DecimalRoundTrip(version);
    DotFree("v" + Decimal(version));
    assert ("v" + Decimal(version))[1..] == Decimal(version);
  }

  /** Every part contributes its dots, and every boundary one more. */
  lemma {:induction false} JoinDotsAtLeast(parts: seq<string>, i: nat)
    requires i < |parts|
    ensures Dots(JoinDots(parts)) >= |parts| - 1 + Dots(parts[i])
  {
    if |parts| > 1 {
      JoinCounts(parts);
      JoinDotsAtLeast(parts[1..], if i == 0 then 0 else i - 1);
    }
  }

  lemma {:induction false} JoinCounts(parts: seq<string>)
    requires |parts| > 1
    ensures Dots(JoinDots(parts)) == Dots(parts[0]) + 1 + Dots(JoinDots(parts[1..]))
  {
    DotsConcat(parts[0], "." + JoinDots(parts[1..]));
    assert ("." + JoinDots(parts[1..]))[1..] == JoinDots(parts[1..]);
  }

  lemma {:induction false} DotFreeParses(s: Subject)
    requires Typed(s) && Dots(s.aggregate) == 0 && Dots(s.event) == 0
    ensures ParseSubject(EventSubject(s)) == Ok(s)
  {
    VersionPart(s.version);
    DotFree("companyos");
    SplitJoin(Parts(s));
  }

  lemma {:induction false} DottedRefused(s: Subject)
    requires Dots(s.aggregate) > 0 || Dots(s.event) > 0
    ensures ParseSubject(EventSubject(s)).Err?
  {
    JoinDotsAtLeast(Parts(s), if Dots(s.aggregate) > 0 then 3 else 4);
    SplitCounts(EventSubject(s));
  }

  predicate AllDigits(s: string) {
    forall i :: 0 <= i < |s| ==> s[i] in "0123456789"
  }

  lemma {:induction false} ValueOfDigits(s: string)
    ensures Value(s).Some? <==> AllDigits(s)
  {
    if s != [] {
      ValueOfDigits(s[..|s| - 1]);
      assert s[|s| - 1] in "0123456789" <==> DigitValue(s[|s| - 1]).Some?;
    }
  }

  /** A number is read from digits, after one plus at most, if it fits in 32 bits. */
  lemma {:induction false} ParseU32Exactly(s: string, v: nat)
    ensures ParseU32(s) == Some(v) <==>
              exists digits :: (s == digits || s == "+" + digits) && digits != [] && AllDigits(digits)
                               && Value(digits) == Some(v) && v <= 4_294_967_295
  {
    var read := if s != [] && s[0] == '+' then s[1..] else s;
    ValueOfDigits(read);
    if s != [] && s[0] == '+' {
      assert s == "+" + s[1..];
    }
    forall digits | (s == digits || s == "+" + digits) && digits != [] && AllDigits(digits)
      ensures digits == read
    {
      assert digits[0] in "0123456789";
    }
  }

  lemma {:induction false} JoinSplit(s: string)
    ensures JoinDots(SplitOn(s, '.')) == s && forall part <- SplitOn(s, '.') :: '.' !in part
  {
    if s != [] {
      JoinSplit(s[1..]);
      var rest := SplitOn(s[1..], '.');
      if s[0] == '.' {
        assert ([[]] + rest)[1..] == rest;
        assert SplitOn(s, '.') == [[]] + rest;
      } else {
        assert Prepend([s[0]], rest)[1..] == rest[1..];
        JoinPrepended(s[0], rest);
      }
    }
  }

  lemma {:induction false} JoinPrepended(c: char, parts: seq<string>)
    requires parts != []
    ensures JoinDots(Prepend([c], parts)) == [c] + JoinDots(parts)
  {
    if |parts| > 1 {
      assert Prepend([c], parts)[1..] == parts[1..];
      Associate([c], parts[0], "." + JoinDots(parts[1..]));
    }
  }

  /** Which texts are subjects: six parts, the first `companyos`, the second a public organization
      id, the last `v` and a version that fits in 32 bits. */
  lemma {:induction false} ParseSubjectExactly(text: string, s: Subject)
    ensures ParseSubject(text) == Ok(s) <==>
              exists version :: ParseU32(version) == Some(s.version) && "org_" <= s.org
                && SplitOn(text, '.') == ["companyos", s.org, s.context, s.aggregate, s.event, "v" + version]
  {
    var parts := SplitOn(text, '.');
    if ParseSubject(text) == Ok(s) {
      var version := parts[5][1..];
      assert parts[5] == "v" + version;
      assert parts == ["companyos", s.org, s.context, s.aggregate, s.event, "v" + version];
    }
    if version :| ParseU32(version) == Some(s.version) && "org_" <= s.org
                  && parts == ["companyos", s.org, s.context, s.aggregate, s.event, "v" + version] {
      assert parts[5][1..] == version;
    }
  }

  /** Parsing inverts printing exactly for dot-free aggregate and event names; with a dot in
      either, the printed subject is refused. */
  lemma {:induction false} SubjectRoundTrip(s: Subject)
    requires Typed(s)
    ensures ParseSubject(EventSubject(s)) == Ok(s) <==> Dots(s.aggregate) == 0 && Dots(s.event) == 0
    ensures ParseSubject(EventSubject(s)).Ok? <==> ParseSubject(EventSubject(s)) == Ok(s)
  {
    if Dots(s.aggregate) == 0 && Dots(s.event) == 0 {
      DotFreeParses(s);
    } else {
      DottedRefused(s);
    }
  }

  /** Different dot-free events never share a subject. */
  lemma {:induction false} SubjectsInjective(a: Subject, b: Subject)
    requires Typed(a) && Typed(b) && EventSubject(a) == EventSubject(b)
    requires Dots(a.aggregate) == Dots(a.event) == Dots(b.aggregate) == Dots(b.event) == 0
    ensures a == b
  {
    SubjectRoundTrip(a);
    SubjectRoundTrip(b);
  }
}
