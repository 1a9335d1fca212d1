/** The event-stream loop of `streamChat` in `apps/web/lib/ai-api.ts`: decoded chunks are
    appended to a buffer, complete lines are handled, the rest waits for the next chunk.

    `trim` and `parse` stand for JavaScript's `trim` and `JSON.parse` (None where it throws). */
module ChatStream {
  import opened Common
  import opened Text

  datatype Call<J> = OnToken(text: string) | OnCitation(citation: J) | OnProposal(proposal: J) | OnDone(meta: J)

  datatype Env<!J> = Env(trim: string -> string, parse: string -> Option<J>)

  /** `split('\n')`. */
  function Lines(s: string): (lines: seq<string>)
    ensures lines != []
  {
    SplitOn(s, '\n')
  }

  function DropLast(lines: seq<string>): seq<string>
    requires lines != []
  {
    lines[..|lines| - 1]
  }

  function Last(lines: seq<string>): string
    requires lines != []
  {
    lines[|lines| - 1]
  }

  function Parsed<J>(env: Env<J>, data: string, call: J -> Call<J>): seq<Call<J>> {
    match env.parse(data)
    case Some(j) => [call(j)]
    case None => []
  }

  function Dispatch<J>(env: Env<J>, event: string, data: string): seq<Call<J>> {
    if data == [] then []
    else if event == "token" then [OnToken(data)]
    else if event == "citation" then Parsed(env, data, j => OnCitation(j))
    else if event == "proposal" then Parsed(env, data, j => OnProposal(j))
    else if event == "done" then Parsed(env, data, j => OnDone(j))
    else []
  }

  /** The event name after a line. A blank line does not reset it, unlike in section 9.2 of the
      WHATWG HTML Standard. */
  function EventAfter<J>(env: Env<J>, event: string, line: string): string {
    if "event:" <= line then env.trim(line[6..]) else event
  }

  function CallsOf<J>(env: Env<J>, event: string, line: string): seq<Call<J>> {
    if "event:" <= line || !("data:" <= line) then [] else Dispatch(env, event, env.trim(line[5..]))
  }

  /** The calls for a list of complete lines. */
  function Handled<J>(env: Env<J>, event: string, lines: seq<string>): seq<Call<J>>
    decreases |lines|
  {
    if lines == [] then []
    else CallsOf(env, event, lines[0]) + Handled(env, EventAfter(env, event, lines[0]), lines[1..])
  }

  function EventAtEnd<J>(env: Env<J>, event: string, lines: seq<string>): string
    decreases |lines|
  {
    if lines == [] then event else EventAtEnd(env, EventAfter(env, event, lines[0]), lines[1..])
  }

  function Concat(chunks: seq<string>): string {
    if chunks == [] then [] else Concat(chunks[..|chunks| - 1]) + chunks[|chunks| - 1]
  }

  /** What the whole text means: its complete lines, in order; an unfinished last line is
      ignored. */
  function Meaning<J>(env: Env<J>, text: string): seq<Call<J>> {
    Handled(env, "message", DropLast(Lines(text)))
  }

  /** The loop of `streamChat`, for any way the text is cut into chunks. */
  method StreamChat<J>(env: Env<J>, chunks: seq<string>) returns (calls: seq<Call<J>>)
    ensures calls == Meaning(env, Concat(chunks))
  {
    var buffer: string := [];
    var currentEvent := "message";
    calls := [];
    assert Lines([]) == [[]];
    for i := 0 to |chunks|
      invariant buffer == Last(Lines(Concat(chunks[..i])))
      invariant currentEvent == EventAtEnd(env, "message", DropLast(Lines(Concat(chunks[..i]))))
      invariant calls == Meaning(env, Concat(chunks[..i]))
    {
      ghost var text := Concat(chunks[..i]);
      assert chunks[..i + 1][..i] == chunks[..i];
      LinesAppendParts(text, chunks[i]);
      buffer := buffer + chunks[i];
      var lines := Lines(buffer);
      buffer := Last(lines);
      HandledAppend(env, "message", DropLast(Lines(text)), DropLast(lines));
      EventAppend(env, "message", DropLast(Lines(text)), DropLast(lines));
      calls, currentEvent := HandleLines(env, currentEvent, DropLast(lines), calls);
    }
    assert chunks[..|chunks|] == chunks;
  }

  /** The inner loop over complete lines. */
  method HandleLines<J>(env: Env<J>, event: string, lines: seq<string>, calls0: seq<Call<J>>)
    returns (calls: seq<Call<J>>, currentEvent: string)
    ensures calls == calls0 + Handled(env, event, lines)
    ensures currentEvent == EventAtEnd(env, event, lines)
  {
    calls, currentEvent := calls0, event;
    for i := 0 to |lines|
      invariant calls == calls0 + Handled(env, event, lines[..i])
      invariant currentEvent == EventAtEnd(env, event, lines[..i])
    {
      var line := lines[i];
      HandledNext(env, event, lines, i);
      Associate(calls0, Handled(env, event, lines[..i]), CallsOf(env, currentEvent, line));
      if "event:" <= line {
        currentEvent := env.trim(line[6..]);
        continue;
      }
      if !("data:" <= line) {
        continue;
      }
      var data := env.trim(line[5..]);
      calls := calls + Dispatch(env, currentEvent, data);
    }
    assert lines[..|lines|] == lines;
  }

  lemma {:induction false} HandledNext<J>(env: Env<J>, event: string, lines: seq<string>, i: nat)
    requires i < |lines|
    ensures var e := EventAtEnd(env, event, lines[..i]);
            && Handled(env, event, lines[..i + 1]) == Handled(env, event, lines[..i]) + CallsOf(env, e, lines[i])
            && EventAtEnd(env, event, lines[..i + 1]) == EventAfter(env, e, lines[i])
  {
    assert lines[..i + 1] == lines[..i] + [lines[i]];
    HandledAppend(env, event, lines[..i], [lines[i]]);
    EventAppend(env, event, lines[..i], [lines[i]]);
    assert [lines[i]][1..] == [];
  }

  ghost predicate Appends(a: string, b: string) {
    Lines(a + b) == DropLast(Lines(a)) + Lines(Last(Lines(a)) + b)
  }

  /** Appending text only touches the unfinished last line. */
  lemma {:induction false} LinesAppend(a: string, b: string)
    ensures Appends(a, b)
  {
    if a == [] {
      assert a + b == b && Last(Lines(a)) + b == b;
    } else {
      LinesAppend(a[1..], b);
      assert a == [a[0]] + a[1..];
      if a[0] == '\n' {
        AppendsAfterNewline(a[1..], b);
      } else {
        AppendsAfterChar(a[0], a[1..], b);
      }
    }
  }

  lemma {:induction false} LinesCons(c: char, x: string)
    ensures Lines([c] + x) == if c == '\n' then [[]] + Lines(x) else Prepend([c], Lines(x))
  {
    SplitCons(c, x, '\n');
  }

  lemma {:induction false} AppendsAfterNewline(x: string, b: string)
    requires Appends(x, b)
    ensures Appends(['\n'] + x, b)
  {
    LinesCons('\n', x);
    LinesCons('\n', x + b);
    Associate(['\n'], x, b);
    var lines := Lines(x);
    assert DropLast([[]] + lines) == [[]] + DropLast(lines);
    assert Last([[]] + lines) == Last(lines);
  }

  lemma {:induction false} AppendsAfterChar(c: char, x: string, b: string)
    requires c != '\n' && Appends(x, b)
    ensures Appends([c] + x, b)
  {
    LinesCons(c, x);
    LinesCons(c, x + b);
    Associate([c], x, b);
    var lines := Lines(x);
    if |lines| > 1 {
      PrependMore(c, lines, Lines(Last(lines) + b));
    } else {
      Associate([c], lines[0], b);
      LinesCons(c, lines[0] + b);
      assert Prepend([c], lines) == [[c] + lines[0]];
    }
  }

  lemma {:induction false} PrependMore(c: char, lines: seq<string>, more: seq<string>)
    requires |lines| > 1
    ensures Prepend([c], DropLast(lines) + more) == DropLast(Prepend([c], lines)) + more
    ensures Last(Prepend([c], lines)) == Last(lines)
  {
  }

  lemma {:induction false} LinesAppendParts(a: string, b: string)
    ensures DropLast(Lines(a + b)) == DropLast(Lines(a)) + DropLast(Lines(Last(Lines(a)) + b))
    ensures Last(Lines(a + b)) == Last(Lines(Last(Lines(a)) + b))
  {
    LinesAppend(a, b);
  }

  lemma {:induction false} HandledCons<J>(env: Env<J>, event: string, line: string, more: seq<string>)
    ensures var next := EventAfter(env, event, line);
            && Handled(env, event, [line] + more) == CallsOf(env, event, line) + Handled(env, next, more)
            && EventAtEnd(env, event, [line] + more) == EventAtEnd(env, next, more)
  {
    assert ([line] + more)[1..] == more;
  }

  lemma {:induction false} EventAppend<J>(env: Env<J>, event: string, a: seq<string>, b: seq<string>)
    ensures EventAtEnd(env, event, a + b) == EventAtEnd(env, EventAtEnd(env, event, a), b)
    decreases |a|
  {
    if a == [] {
      assert a + b == b;
    } else {
      EventAppend(env, EventAfter(env, event, a[0]), a[1..], b);
      assert a == [a[0]] + a[1..] && a + b == [a[0]] + (a[1..] + b);
      HandledCons(env, event, a[0], a[1..]);
      HandledCons(env, event, a[0], a[1..] + b);
    }
  }

  lemma {:induction false} ConsAppend(a: seq<string>, b: seq<string>)
    requires a != []
    ensures a == [a[0]] + a[1..] && a + b == [a[0]] + (a[1..] + b)
  {
  }

  lemma {:induction false} HandledStep<J>(env: Env<J>, event: string, line: string, more: seq<string>, b: seq<string>,
                                          rest: seq<Call<J>>)
    requires var next := EventAfter(env, event, line); Handled(env, next, more + b) == Handled(env, next, more) + rest
    ensures Handled(env, event, [line] + (more + b)) == Handled(env, event, [line] + more) + rest
  {
    HandledCons(env, event, line, more);
    HandledCons(env, event, line, more + b);
    Associate(CallsOf(env, event, line), Handled(env, EventAfter(env, event, line), more), rest);
  }

  lemma {:induction false} HandledAppend<J>(env: Env<J>, event: string, a: seq<string>, b: seq<string>)
    ensures Handled(env, event, a + b) == Handled(env, event, a) + Handled(env, EventAtEnd(env, event, a), b)
    decreases |a|
  {
    if a == [] {
      assert a + b == b;
    } else {
      var line, more, next := a[0], a[1..], EventAfter(env, event, a[0]);
      ConsAppend(a, b);
      HandledAppend(env, next, more, b);
      HandledStep(env, event, line, more, b, Handled(env, EventAtEnd(env, next, more), b));
    }
  }

  /** What was reported for a prefix of the stream is never retracted or reordered. */
  lemma {:induction false} CallsOnlyGrow<J>(env: Env<J>, text: string, more: string)
    ensures Meaning(env, text) <= Meaning(env, text + more)
  {
    LinesAppendParts(text, more);
    HandledAppend(env, "message", DropLast(Lines(text)), DropLast(Lines(Last(Lines(text)) + more)));
  }

  // Which line calls which handler

  ghost predicate EventLine(line: string) {
    "event:" <= line
  }

  /** The event name in force at line i: that of the last event line before it, "message" if there
      is none. */
  ghost predicate InForce<J>(env: Env<J>, lines: seq<string>, i: nat, event: string)
    requires i <= |lines|
  {
    || (event == "message" && forall k :: 0 <= k < i ==> !EventLine(lines[k]))
    || (exists k :: 0 <= k < i && EventLine(lines[k]) && env.trim(lines[k][6..]) == event
                    && forall m :: k < m < i ==> !EventLine(lines[m]))
  }

  /** Line i is a data line that asks for the call: the payload is not empty, the event in force is
      that of the handler, and all but tokens are parsed. */
  ghost predicate Yields<J>(env: Env<J>, lines: seq<string>, i: nat, call: Call<J>)
    requires i < |lines|
  {
    && "data:" <= lines[i]
    && var data := env.trim(lines[i][5..]);
       && data != []
       && match call
          case OnToken(text) => text == data && InForce(env, lines, i, "token")
          case OnCitation(j) => env.parse(data) == Some(j) && InForce(env, lines, i, "citation")
          case OnProposal(j) => env.parse(data) == Some(j) && InForce(env, lines, i, "proposal")
          case OnDone(j) => env.parse(data) == Some(j) && InForce(env, lines, i, "done")
  }

  /** The calls are those that the lines before n ask for, one for each such line, in line order. */
  ghost predicate Yielded<J(!new)>(env: Env<J>, lines: seq<string>, n: nat, calls: seq<Call<J>>, at: seq<nat>)
    requires n <= |lines|
  {
    && |at| == |calls|
    && (forall m :: 0 <= m < |at| ==> at[m] < n && Yields(env, lines, at[m], calls[m]))
    && (forall l, m :: 0 <= l < m < |at| ==> at[l] < at[m])
    && (forall i, call | 0 <= i < n && Yields(env, lines, i, call) :: exists m :: 0 <= m < |at| && at[m] == i)
  }

  lemma {:induction false} EventInForce<J>(env: Env<J>, lines: seq<string>, i: nat, event: string)
    requires i <= |lines|
    ensures InForce(env, lines, i, event) <==> event == EventAtEnd(env, "message", lines[..i])
  {
    if i > 0 {
      var line := lines[i - 1];
      HandledNext(env, "message", lines, i - 1);
      EventInForce(env, lines, i - 1, event);
      if EventLine(line) {
        assert InForce(env, lines, i, env.trim(line[6..]));
      } else {
        InForceNext(env, lines, i, event);
      }
    }
  }

  lemma {:induction false} InForceNext<J>(env: Env<J>, lines: seq<string>, i: nat, event: string)
    requires 0 < i <= |lines| && !EventLine(lines[i - 1])
    ensures InForce(env, lines, i, event) <==> InForce(env, lines, i - 1, event)
  {
  }

  /** The call of one line, if there is one. */
  lemma {:induction false} LineYields<J(!new)>(env: Env<J>, lines: seq<string>, i: nat, call: Call<J>)
    requires i < |lines|
    ensures var calls := CallsOf(env, EventAtEnd(env, "message", lines[..i]), lines[i]);
            |calls| <= 1 && (Yields(env, lines, i, call) <==> calls == [call])
  {
    EventInForce(env, lines, i, "token");
    EventInForce(env, lines, i, "citation");
    EventInForce(env, lines, i, "proposal");
    EventInForce(env, lines, i, "done");
    assert "data:" <= lines[i] ==> lines[i][0] == 'd';
    assert "event:" <= lines[i] ==> lines[i][0] == 'e';
  }

  lemma {:induction false} YieldedUpTo<J(!new)>(env: Env<J>, lines: seq<string>, n: nat) returns (at: seq<nat>)
    requires n <= |lines|
    ensures Yielded(env, lines, n, Handled(env, "message", lines[..n]), at)
  {
    if n == 0 {
      at := [];
    } else {
      var i := n - 1;
      var before := YieldedUpTo(env, lines, i);
      HandledNext(env, "message", lines, i);
      var calls, event := Handled(env, "message", lines[..i]), EventAtEnd(env, "message", lines[..i]);
      var more := CallsOf(env, event, lines[i]);
      forall call: Call<J>
        ensures |more| <= 1 && (Yields(env, lines, i, call) <==> more == [call])
      {
        LineYields(env, lines, i, call);
      }
      if more == [] {
        at := before;
        YieldedSkip(env, lines, i, calls, at);
        assert calls + more == calls;
      } else {
        at := before + [i];
        assert more == [more[0]];
        YieldedCall(env, lines, i, calls, before, more[0]);
      }
    }
  }

  lemma {:induction false} YieldedSkip<J(!new)>(env: Env<J>, lines: seq<string>, i: nat, calls: seq<Call<J>>,
                                                at: seq<nat>)
    requires i < |lines| && Yielded(env, lines, i, calls, at)
    requires forall call: Call<J> :: !Yields(env, lines, i, call)
    ensures Yielded(env, lines, i + 1, calls, at)
  {
  }

  lemma {:induction false} YieldedCall<J(!new)>(env: Env<J>, lines: seq<string>, i: nat, calls: seq<Call<J>>,
                                                before: seq<nat>, call: Call<J>)
    requires i < |lines| && Yielded(env, lines, i, calls, before) && Yields(env, lines, i, call)
    ensures Yielded(env, lines, i + 1, calls + [call], before + [i])
  {
    var at := before + [i];
    assert at[|before|] == i;
    forall k, c | 0 <= k < i + 1 && Yields(env, lines, k, c)
      ensures exists m :: 0 <= m < |at| && at[m] == k
    {
      if k < i {
        var m :| 0 <= m < |before| && before[m] == k;
        assert at[m] == k;
      }
    }
  }

  /** What a text means, handler by handler: every call comes from a complete data line that asks
      for it, every such line yields exactly one call, and calls come in the order of their lines. */
  lemma {:induction false} CallsAreYielded<J(!new)>(env: Env<J>, text: string) returns (at: seq<nat>)
    ensures var lines := DropLast(Lines(text)); Yielded(env, lines, |lines|, Meaning(env, text), at)
  {
    var lines := DropLast(Lines(text));
    at := YieldedUpTo(env, lines, |lines|);
    assert lines[..|lines|] == lines;
  }

  /** A line asks for one call at most. */
  lemma {:induction false} YieldsOne<J(!new)>(env: Env<J>, lines: seq<string>, i: nat, a: Call<J>, b: Call<J>)
    requires i < |lines| && Yields(env, lines, i, a) && Yields(env, lines, i, b)
    ensures a == b
  {
    LineYields(env, lines, i, a);
    LineYields(env, lines, i, b);
  }
}
