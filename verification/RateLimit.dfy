/** The two fixed-window rate limiters of `services/gateway/src/api_key_auth.rs`: the in-memory
    map of windows, pruned when it grows, and the Redis counters with expiry. Redis computes one
    declarative rule; when exactly the memory limiter does too, and so agrees, is proved here. */
module RateLimit {
  import opened Common

  datatype Info = Info(limit: nat, remaining: nat, resetEpochSecs: nat)

  type Verdict = Result<Info, Info>

  /** One request: clock reading in seconds since the epoch. */
  datatype Hit = Hit(key: string, limit: nat, now: nat) {
    function Minute(): nat {
      now / 60
    }

    /** Both limiters raise a limit of zero to one. */
    function Limit(): nat {
      if limit < 1 then 1 else limit
    }

    function Accept(count: nat): Verdict {
      Ok(Info(Limit(), if count <= Limit() then Limit() - count else 0, (Minute() + 1) * 60))
    }

    function Reject(): Verdict {
      Err(Info(Limit(), 0, (Minute() + 1) * 60))
    }
  }

  // --------------------------------------------------------------- in memory

  const PRUNE_ABOVE := 10_000

  datatype Window = Window(minute: nat, count: nat)

  type Windows = map<string, Window>

  function Pruned(windows: Windows, minute: nat): Windows {
    if |windows| > PRUNE_ABOVE
    then map k | k in windows && windows[k].minute >= (if minute > 0 then minute - 1 else 0) :: windows[k]
    else windows
  }

  /** Hits counted for a key in a minute. */
  function CountIn(windows: Windows, key: string, minute: nat): nat {
    if key in windows && windows[key].minute == minute then windows[key].count else 0
  }

  function MemoryHit(windows: Windows, h: Hit): (Windows, Verdict) {
    var pruned := Pruned(windows, h.Minute());
    var count := CountIn(pruned, h.key, h.Minute());
    if count >= h.Limit()
    then (pruned[h.key := Window(h.Minute(), count)], h.Reject())
    else (pruned[h.key := Window(h.Minute(), count + 1)], h.Accept(count + 1))
  }

  class ApiKeyRateLimiter {
    var windows: Windows

    constructor ()
      ensures windows == map[]
    {
      windows := map[];
    }

    method CheckAndHit(h: Hit) returns (r: Verdict)
      modifies this
      ensures (windows, r) == MemoryHit(old(windows), h)
    {
      var minute := h.Minute();
      if |windows| > PRUNE_ABOVE {
        windows := map k | k in windows && windows[k].minute >= (if minute > 0 then minute - 1 else 0) :: windows[k];
      }
      ghost var pruned := windows;
      assert pruned == Pruned(old(windows), minute);
      if h.key !in windows {
        windows := windows[h.key := Window(minute, 0)];
      }
      if windows[h.key].minute != minute {
        windows := windows[h.key := Window(minute, 0)];
      }
      var entry := windows[h.key];
      assert entry.count == CountIn(pruned, h.key, minute);
      assert windows == pruned[h.key := Window(minute, entry.count)];
      if entry.count >= h.Limit() {
        return h.Reject();
      }
      windows := windows[h.key := Window(minute, entry.count + 1)];
      assert windows == pruned[h.key := Window(minute, entry.count + 1)];
      r := h.Accept(entry.count + 1);
    }
  }

  // ------------------------------------------------------------------- Redis

  /** A counter and the time at which Redis drops it. */
  datatype Counter = Counter(count: nat, expiresAt: nat)

  type Store = map<(string, nat), Counter>

  /** INCR, then EXPIRE 90 on the first increment; an expired counter starts again. */
  function RedisHit(store: Store, h: Hit): (Store, Verdict) {
    var k := (h.key, h.Minute());
    var live := k in store && h.now < store[k].expiresAt;
    var count := if live then store[k].count + 1 else 1;
    var expires := if live then store[k].expiresAt else h.now + 90;
    (store[k := Counter(count, expires)], if count > h.Limit() then h.Reject() else h.Accept(count))
  }

  // -------------------------------------------------------------------- rule

  /** How many of the hits are for the key in the minute. */
  function Attempts(hits: seq<Hit>, key: string, minute: nat): nat {
    if hits == [] then 0
    else
      var last := hits[|hits| - 1];
      Attempts(hits[..|hits| - 1], key, minute) + if last.key == key && last.Minute() == minute then 1 else 0
  }

  /** The rule: a hit passes if, itself included, its key has made no more attempts this minute
      than the limit. */
  function Rule(hits: seq<Hit>, h: Hit): Verdict {
    var n := Attempts(hits, h.key, h.Minute()) + 1;
    if n <= h.Limit() then h.Accept(n) else h.Reject()
  }

  function MemoryAfter(hits: seq<Hit>): Windows {
    if hits == [] then map[] else MemoryHit(MemoryAfter(hits[..|hits| - 1]), hits[|hits| - 1]).0
  }

  function RedisAfter(hits: seq<Hit>): Store {
    if hits == [] then map[] else RedisHit(RedisAfter(hits[..|hits| - 1]), hits[|hits| - 1]).0
  }

  /** What the memory limiter answers to a hit after a history of hits. */
  function MemoryVerdict(hits: seq<Hit>, h: Hit): Verdict {
    MemoryHit(MemoryAfter(hits), h).1
  }

  function RedisVerdict(hits: seq<Hit>, h: Hit): Verdict {
    RedisHit(RedisAfter(hits), h).1
  }

  /** No hit falls in an earlier minute than one before it. */
  ghost predicate MinutesInOrder(hits: seq<Hit>) {
    forall i, j :: 0 <= i < j < |hits| ==> hits[i].Minute() <= hits[j].Minute()
  }

  /** The number of attempts the key had made in the minute when one first met its limit. */
  function FirstRejection(hits: seq<Hit>, key: string, minute: nat): Option<nat> {
    if hits == [] then None
    else
      var before, last := hits[..|hits| - 1], hits[|hits| - 1];
      var n := Attempts(before, key, minute);
      if FirstRejection(before, key, minute).Some? then FirstRejection(before, key, minute)
      else if last.key == key && last.Minute() == minute && n >= last.Limit() then Some(n)
      else None
  }

  /** The hit's limit does not exceed the attempts at which its key was first rejected in the
      minute, if it was. */
  predicate Harmless(hits: seq<Hit>, h: Hit) {
    var first := FirstRejection(hits, h.key, h.Minute());
    first.Some? ==> h.Limit() <= first.value
  }

  /** The minute at which the memory limiter's window of the key stands: that of the key's last
      hit, unless the window has been pruned since. */
  function StandsAt(hits: seq<Hit>, key: string): Option<nat> {
    if hits == [] then None
    else
      var before, last := hits[..|hits| - 1], hits[|hits| - 1];
      var was := StandsAt(before, key);
      if last.key == key then Some(last.Minute())
      else if was.Some? && was.value + 1 < last.Minute() && |MemoryAfter(before)| > PRUNE_ABOVE then None
      else was
  }

  /** The key has been hit in the minute before, but its window does not stand there any more. */
  predicate Forgotten(hits: seq<Hit>, key: string, minute: nat) {
    Attempts(hits, key, minute) > 0 && StandsAt(hits, key) != Some(minute)
  }

  /** What makes the memory limiter follow the rule on the next hit. */
  predicate Benign(hits: seq<Hit>, h: Hit) {
    Harmless(hits, h) && !Forgotten(hits, h.key, h.Minute())
  }

  ghost predicate AllBenign(hits: seq<Hit>) {
    forall j :: 0 <= j < |hits| ==> Benign(hits[..j], hits[j])
  }

  /** After a rejection no limit is raised above the attempts made until then. */
  ghost predicate NotRaisedAfterRejection(hits: seq<Hit>) {
    forall j :: 0 <= j < |hits| ==> Harmless(hits[..j], hits[j])
  }

  /** No hit returns to a minute that the memory limiter has forgotten. */
  ghost predicate NoneForgotten(hits: seq<Hit>) {
    forall j :: 0 <= j < |hits| ==> !Forgotten(hits[..j], hits[j].key, hits[j].Minute())
  }

  /** Within a minute no key's limit is raised. */
  ghost predicate NeverRaised(hits: seq<Hit>) {
    forall i, j :: 0 <= i < j < |hits| && hits[i].key == hits[j].key && hits[i].Minute() == hits[j].Minute() ==>
      hits[i].Limit() >= hits[j].Limit()
  }

  // ------------------------------------------------------------------- proofs

  /** Redis counts attempts, and a counter outlives its minute. */
  lemma {:induction false} RedisCounts(hits: seq<Hit>, key: string, minute: nat)
    ensures var store, n := RedisAfter(hits), Attempts(hits, key, minute);
            if n == 0 then (key, minute) !in store
            else
              && (key, minute) in store && store[(key, minute)].count == n
              && store[(key, minute)].expiresAt >= minute * 60 + 90
  {
    if hits != [] {
      var before, last := hits[..|hits| - 1], hits[|hits| - 1];
      RedisCounts(before, key, minute);
      MinuteBounds(last);
    }
  }

  lemma {:induction false} MinuteBounds(h: Hit)
    ensures h.Minute() * 60 <= h.now < h.Minute() * 60 + 60
  {
  }

  /** Pruning drops no window of the current minute. */
  lemma {:induction false} PruningInvisible(windows: Windows, key: string, minute: nat)
    ensures CountIn(Pruned(windows, minute), key, minute) == CountIn(windows, key, minute)
  {
  }

  /** Up to 10,000 windows nothing is pruned; above, exactly those from before the last minute. */
  lemma {:induction false} PrunedExactly(windows: Windows, key: string, minute: nat)
    ensures |windows| <= 10_000 ==> Pruned(windows, minute) == windows
    ensures |windows| > 10_000 ==>
              && (key in Pruned(windows, minute) <==> key in windows && windows[key].minute + 1 >= minute)
              && (key in Pruned(windows, minute) ==> Pruned(windows, minute)[key] == windows[key])
  {
  }

  /** What one hit does to the windows. */
  lemma {:induction false} MemoryStep(windows: Windows, h: Hit, key: string)
    ensures var after := MemoryHit(windows, h).0;
            if h.key == key then
              var count := CountIn(windows, key, h.Minute());
              && key in after
              && after[key] == Window(h.Minute(), if count >= h.Limit() then count else count + 1)
            else if key in windows && windows[key].minute + 1 < h.Minute() && |windows| > PRUNE_ABOVE then
              key !in after
            else
              && (key in after <==> key in windows)
              && (key in windows ==> after[key] == windows[key])
  {
    PruningInvisible(windows, key, h.Minute());
  }

  /** There is a window for the key exactly where it stands. */
  lemma {:induction false} WindowStands(hits: seq<Hit>, key: string)
    ensures var windows, at := MemoryAfter(hits), StandsAt(hits, key);
            && (key in windows <==> at.Some?)
            && (key in windows ==> windows[key].minute == at.value)
  {
    if hits != [] {
      WindowStands(hits[..|hits| - 1], key);
      MemoryStep(MemoryAfter(hits[..|hits| - 1]), hits[|hits| - 1], key);
    }
  }

  lemma {:induction false} NotYet(hits: seq<Hit>, key: string, latest: nat, minute: nat)
    requires latest < minute && forall i :: 0 <= i < |hits| ==> hits[i].Minute() <= latest
    ensures Attempts(hits, key, minute) == 0
  {
    if hits != [] {
      NotYet(hits[..|hits| - 1], key, latest, minute);
    }
  }

  lemma {:induction false} NotRejectedYet(hits: seq<Hit>, key: string, minute: nat)
    ensures var first := FirstRejection(hits, key, minute);
            first.Some? ==> first.value < Attempts(hits, key, minute)
  {
    if hits != [] {
      NotRejectedYet(hits[..|hits| - 1], key, minute);
    }
  }

  /** The minutes of the hits before the last, and of those before any later one. */
  lemma {:induction false} OrderedPrefix(hits: seq<Hit>, n: nat)
    requires MinutesInOrder(hits) && n < |hits|
    ensures MinutesInOrder(hits[..n]) && forall i :: 0 <= i < n ==> hits[..n][i].Minute() <= hits[n].Minute()
  {
  }

  lemma {:induction false} LastBenign(before: seq<Hit>, last: Hit)
    ensures AllBenign(before + [last]) <==> AllBenign(before) && Benign(before, last)
  {
    var hits := before + [last];
    assert hits[..|before|] == before;
    assert forall j :: 0 <= j < |before| ==> hits[..j] == before[..j];
  }

  /** The attempts until one was rejected. */
  function Standing(hits: seq<Hit>, key: string, minute: nat): nat {
    var first := FirstRejection(hits, key, minute);
    if first.Some? then first.value else Attempts(hits, key, minute)
  }

  lemma {:induction false} AttemptsAppend(before: seq<Hit>, last: Hit, key: string, minute: nat)
    ensures var own := last.key == key && last.Minute() == minute;
            Attempts(before + [last], key, minute) == Attempts(before, key, minute) + if own then 1 else 0
  {
    assert (before + [last])[..|before|] == before;
  }

  lemma {:induction false} RejectionAppend(before: seq<Hit>, last: Hit, key: string, minute: nat)
    ensures var first, n := FirstRejection(before, key, minute), Attempts(before, key, minute);
            var rejects := last.key == key && last.Minute() == minute && n >= last.Limit();
            FirstRejection(before + [last], key, minute)
            == if first.Some? then first else if rejects then Some(n) else None
  {
    assert (before + [last])[..|before|] == before;
  }

  lemma {:induction false} StandingStep(before: seq<Hit>, last: Hit, key: string, minute: nat)
    requires Harmless(before, last)
    ensures var was := Standing(before, key, minute);
            var counted := last.key == key && last.Minute() == minute && was < last.Limit();
            Standing(before + [last], key, minute) == if counted then was + 1 else was
  {
    AttemptsAppend(before, last, key, minute);
    RejectionAppend(before, last, key, minute);
  }

  /** A window's count is the number of attempts in its minute until one was rejected. */
  ghost predicate CountsStanding(hits: seq<Hit>, key: string) {
    var windows := MemoryAfter(hits);
    key in windows ==> windows[key].count == Standing(hits, key, windows[key].minute)
  }

  /** What the next hit of the key in the minute finds counted. */
  lemma {:induction false} CountFound(hits: seq<Hit>, key: string, minute: nat)
    requires CountsStanding(hits, key)
    ensures CountIn(MemoryAfter(hits), key, minute)
            == if StandsAt(hits, key) == Some(minute) then Standing(hits, key, minute) else 0
    ensures Attempts(hits, key, minute) == 0 ==> Standing(hits, key, minute) == 0
  {
    WindowStands(hits, key);
    NotRejectedYet(hits, key, minute);
  }

  lemma {:induction false} MemoryCounts(hits: seq<Hit>, key: string)
    requires AllBenign(hits)
    ensures CountsStanding(hits, key)
  {
    if hits != [] {
      var n := |hits| - 1;
      var before, last := hits[..n], hits[n];
      assert hits == before + [last];
      LastBenign(before, last);
      MemoryCounts(before, key);
      MemoryStep(MemoryAfter(before), last, key);
      if last.key == key {
        CountFound(before, key, last.Minute());
        StandingStep(before, last, key, last.Minute());
      } else if key in MemoryAfter(before) {
        StandingStep(before, last, key, MemoryAfter(before)[key].minute);
      }
    }
  }

  lemma {:induction false} RedisFollowsRule(hits: seq<Hit>, h: Hit)
    ensures RedisVerdict(hits, h) == Rule(hits, h)
  {
    RedisCounts(hits, h.key, h.Minute());
    MinuteBounds(h);
  }

  ghost predicate FollowsRule(hits: seq<Hit>) {
    forall j :: 0 <= j < |hits| ==> MemoryVerdict(hits[..j], hits[j]) == Rule(hits[..j], hits[j])
  }

  lemma {:induction false} LastFollows(before: seq<Hit>, last: Hit)
    ensures FollowsRule(before + [last]) <==> FollowsRule(before) && MemoryVerdict(before, last) == Rule(before, last)
  {
    var hits := before + [last];
    assert hits[..|before|] == before;
    assert forall j :: 0 <= j < |before| ==> hits[..j] == before[..j];
  }

  /** The next verdict of the memory limiter is that of the rule exactly if the hit is benign. */
  lemma {:induction false} NextVerdict(hits: seq<Hit>, h: Hit)
    requires AllBenign(hits)
    ensures MemoryVerdict(hits, h) == Rule(hits, h) <==> Benign(hits, h)
  {
    MemoryCounts(hits, h.key);
    CountFound(hits, h.key, h.Minute());
    NotRejectedYet(hits, h.key, h.Minute());
    PruningInvisible(MemoryAfter(hits), h.key, h.Minute());
  }

  /** The memory limiter follows the rule on every hit of a history exactly when no limit is
      raised, after a rejection, above the attempts made until then, and no hit returns to a
      minute that the limiter has forgotten. */
  lemma {:induction false} MemoryFollowsRule(hits: seq<Hit>)
    ensures FollowsRule(hits) <==> AllBenign(hits)
  {
    if hits != [] {
      var n := |hits| - 1;
      var before, last := hits[..n], hits[n];
      assert hits == before + [last];
      LastFollows(before, last);
      LastBenign(before, last);
      MemoryFollowsRule(before);
      if AllBenign(before) {
        NextVerdict(before, last);
      }
    }
  }

  /** Both limiters give every hit the same verdict with the same remaining count. */
  ghost predicate Agree(hits: seq<Hit>) {
    forall j :: 0 <= j < |hits| ==> MemoryVerdict(hits[..j], hits[j]) == RedisVerdict(hits[..j], hits[j])
  }

  /** The limiters agree exactly on those histories, whatever the clocks, limits and keys. */
  lemma {:induction false} LimitersAgree(hits: seq<Hit>)
    ensures Agree(hits) <==> NotRaisedAfterRejection(hits) && NoneForgotten(hits)
  {
    forall j | 0 <= j < |hits|
      ensures RedisVerdict(hits[..j], hits[j]) == Rule(hits[..j], hits[j])
    {
      RedisFollowsRule(hits[..j], hits[j]);
    }
    MemoryFollowsRule(hits);
    assert AllBenign(hits) <==> NotRaisedAfterRejection(hits) && NoneForgotten(hits);
  }

  // Minutes in order: nothing is forgotten

  lemma {:induction false} OrderedRemembers(hits: seq<Hit>, key: string, minute: nat)
    requires MinutesInOrder(hits) && forall i :: 0 <= i < |hits| ==> hits[i].Minute() <= minute
    ensures !Forgotten(hits, key, minute)
  {
    if hits != [] {
      var n := |hits| - 1;
      OrderedPrefix(hits, n);
      OrderedRemembers(hits[..n], key, minute);
      if hits[n].key == key && hits[n].Minute() < minute {
        NotYet(hits[..n], key, hits[n].Minute(), minute);
      }
    }
  }

  lemma {:induction false} OrderedNoneForgotten(hits: seq<Hit>)
    requires MinutesInOrder(hits)
    ensures NoneForgotten(hits)
  {
    forall j | 0 <= j < |hits|
      ensures !Forgotten(hits[..j], hits[j].key, hits[j].Minute())
    {
      OrderedPrefix(hits, j);
      OrderedRemembers(hits[..j], hits[j].key, hits[j].Minute());
    }
  }

  /** While minutes come in order, only a raised limit makes the limiters differ. */
  lemma {:induction false} OrderedAgree(hits: seq<Hit>)
    requires MinutesInOrder(hits)
    ensures Agree(hits) <==> NotRaisedAfterRejection(hits)
  {
    OrderedNoneForgotten(hits);
    LimitersAgree(hits);
  }

  // Few keys: nothing is pruned

  /** The minute of the key's last hit. */
  function LastMinute(hits: seq<Hit>, key: string): Option<nat> {
    if hits == [] then None
    else if hits[|hits| - 1].key == key then Some(hits[|hits| - 1].Minute())
    else LastMinute(hits[..|hits| - 1], key)
  }

  function KeysOf(hits: seq<Hit>): set<string> {
    set i | 0 <= i < |hits| :: hits[i].key
  }

  lemma {:induction false} WindowsOfKeys(hits: seq<Hit>)
    ensures MemoryAfter(hits).Keys <= KeysOf(hits)
  {
    if hits != [] {
      var n := |hits| - 1;
      WindowsOfKeys(hits[..n]);
      assert forall i :: 0 <= i < n ==> hits[..n][i] == hits[i];
      assert hits[n].key in KeysOf(hits);
    }
  }

  lemma {:induction false} SubsetSize(a: set<string>, b: set<string>)
    requires a <= b
    ensures |a| <= |b|
  {
    assert b == a + (b - a);
  }

  lemma {:induction false} FewKeysStand(hits: seq<Hit>, key: string)
    requires |KeysOf(hits)| <= PRUNE_ABOVE
    ensures StandsAt(hits, key) == LastMinute(hits, key)
  {
    if hits != [] {
      var n := |hits| - 1;
      FewKeysPrefix(hits, n);
      FewKeysStand(hits[..n], key);
      WindowsOfKeys(hits[..n]);
      SubsetSize(MemoryAfter(hits[..n]).Keys, KeysOf(hits[..n]));
    }
  }

  lemma {:induction false} FewKeysPrefix(hits: seq<Hit>, n: nat)
    requires n <= |hits|
    ensures |KeysOf(hits[..n])| <= |KeysOf(hits)|
  {
    assert forall i :: 0 <= i < n ==> hits[..n][i] == hits[i];
    SubsetSize(KeysOf(hits[..n]), KeysOf(hits));
  }

  /** The key has been hit in the minute, and in another one since. */
  predicate Left(hits: seq<Hit>, key: string, minute: nat) {
    Attempts(hits, key, minute) > 0 && LastMinute(hits, key) != Some(minute)
  }

  /** With no more keys than trigger pruning and clocks in any order, the limiters agree exactly
      when no limit is raised after a rejection and no key returns to a minute that it has left. */
  lemma {:induction false} FewKeysAgree(hits: seq<Hit>)
    requires |KeysOf(hits)| <= PRUNE_ABOVE
    ensures Agree(hits) <==>
              && NotRaisedAfterRejection(hits)
              && forall j :: 0 <= j < |hits| ==> !Left(hits[..j], hits[j].key, hits[j].Minute())
  {
    forall j | 0 <= j < |hits|
      ensures Left(hits[..j], hits[j].key, hits[j].Minute()) == Forgotten(hits[..j], hits[j].key, hits[j].Minute())
    {
      FewKeysPrefix(hits, j);
      FewKeysStand(hits[..j], hits[j].key);
    }
    LimitersAgree(hits);
  }

  /** A rejection is by a limit of an earlier hit. */
  lemma {:induction false} RejectedByLimit(hits: seq<Hit>, key: string, minute: nat) returns (i: nat)
    requires FirstRejection(hits, key, minute).Some?
    ensures i < |hits| && hits[i].key == key && hits[i].Minute() == minute
    ensures hits[i].Limit() <= FirstRejection(hits, key, minute).value
  {
    var n := |hits| - 1;
    if FirstRejection(hits[..n], key, minute).Some? {
      i := RejectedByLimit(hits[..n], key, minute);
    } else {
      i := n;
    }
  }

  /** While every key keeps its limit, or has it lowered, the limiters agree exactly when no hit
      returns to a forgotten minute; in order, always. */
  lemma {:induction false} FixedLimitsAgree(hits: seq<Hit>)
    requires NeverRaised(hits)
    ensures Agree(hits) <==> NoneForgotten(hits)
    ensures MinutesInOrder(hits) ==> Agree(hits)
  {
    forall k | 0 <= k < |hits|
      ensures Harmless(hits[..k], hits[k])
    {
      if FirstRejection(hits[..k], hits[k].key, hits[k].Minute()).Some? {
        var i := RejectedByLimit(hits[..k], hits[k].key, hits[k].Minute());
        assert hits[i].Limit() >= hits[k].Limit();
      }
    }
    LimitersAgree(hits);
    if MinutesInOrder(hits) {
      OrderedNoneForgotten(hits);
    }
  }

  /** How many hits of the key in the minute a limiter passes. */
  function Passed(verdict: (seq<Hit>, Hit) -> Verdict, hits: seq<Hit>, key: string, minute: nat): nat {
    if hits == [] then 0
    else
      var before, last := hits[..|hits| - 1], hits[|hits| - 1];
      Passed(verdict, before, key, minute)
      + if last.key == key && last.Minute() == minute && verdict(before, last).Ok? then 1 else 0
  }

  /** How many hits of the key the memory limiter has passed since its window began. */
  function PassedInStay(hits: seq<Hit>, key: string): nat {
    if hits == [] then 0
    else
      var before, last := hits[..|hits| - 1], hits[|hits| - 1];
      if last.key != key then PassedInStay(before, key)
      else
        (if StandsAt(before, key) == Some(last.Minute()) then PassedInStay(before, key) else 0)
        + if MemoryVerdict(before, last).Ok? then 1 else 0
  }

  /** The memory limiter counts exactly the hits it has passed since the window began, whatever
      the clocks and limits. */
  lemma {:induction false} MemoryCountsPassed(hits: seq<Hit>, key: string)
    requires key in MemoryAfter(hits)
    ensures MemoryAfter(hits)[key].count == PassedInStay(hits, key)
  {
    var n := |hits| - 1;
    var before, last := hits[..n], hits[n];
    MemoryStep(MemoryAfter(before), last, key);
    WindowStands(before, key);
    if key in MemoryAfter(before) {
      MemoryCountsPassed(before, key);
    }
    PruningInvisible(MemoryAfter(before), last.key, last.Minute());
  }

  // The numbers a caller is told

  /** The limit, and the end of the minute. */
  ghost predicate Reports(v: Verdict, h: Hit) {
    var info := if v.Ok? then v.value else v.error;
    && info.limit == (if h.limit == 0 then 1 else h.limit)
    && info.resetEpochSecs % 60 == 0 && h.now < info.resetEpochSecs <= h.now + 60
    && (v.Err? ==> info.remaining == 0)
  }

  /** Redis tells how many attempts are left in the minute. */
  lemma {:induction false} RedisNumbers(hits: seq<Hit>, h: Hit)
    ensures var v, n := RedisVerdict(hits, h), Attempts(hits, h.key, h.Minute()) + 1;
            Reports(v, h) && if v.Ok? then v.value.remaining + n == v.value.limit else n > v.error.limit
  {
    RedisFollowsRule(hits, h);
    MinuteBounds(h);
  }

  /** The memory limiter tells how many more hits it will pass in the window. */
  lemma {:induction false} MemoryNumbers(hits: seq<Hit>, h: Hit)
    ensures var v, n := MemoryVerdict(hits, h), PassedInStay(hits + [h], h.key);
            Reports(v, h) && if v.Ok? then v.value.remaining + n == v.value.limit else n >= v.error.limit
  {
    var all := hits + [h];
    assert all[..|all| - 1] == hits;
    MemoryStep(MemoryAfter(hits), h, h.key);
    MemoryCountsPassed(all, h.key);
    PruningInvisible(MemoryAfter(hits), h.key, h.Minute());
    MinuteBounds(h);
  }

  /** How often the key's window begins to stand at the minute. */
  function Stays(hits: seq<Hit>, key: string, minute: nat): nat {
    if hits == [] then 0
    else
      var before, last := hits[..|hits| - 1], hits[|hits| - 1];
      var begins := last.key == key && last.Minute() == minute && StandsAt(before, key) != Some(minute);
      Stays(before, key, minute) + if begins then 1 else 0
  }

  /** Redis passes no more hits of a key in a minute than the largest limit it was called with,
      in whatever order the clock readings come. */
  lemma {:induction false} RedisAtMostLimit(hits: seq<Hit>, key: string, minute: nat, limit: nat)
    requires forall i :: 0 <= i < |hits| && hits[i].key == key && hits[i].Minute() == minute ==>
               hits[i].Limit() <= limit
    ensures Passed(RedisVerdict, hits, key, minute) <= limit
    ensures Passed(RedisVerdict, hits, key, minute) <= Attempts(hits, key, minute)
  {
    if hits != [] {
      var n := |hits| - 1;
      RedisAtMostLimit(hits[..n], key, minute, limit);
      RedisFollowsRule(hits[..n], hits[n]);
    }
  }

  /** `limit` hits for every stay. */
  function Budget(hits: seq<Hit>, key: string, minute: nat, limit: nat): (b: nat)
    ensures b == limit * Stays(hits, key, minute)
  {
    if hits == [] then 0
    else
      var before := hits[..|hits| - 1];
      Budget(before, key, minute, limit) + if Stays(hits, key, minute) > Stays(before, key, minute) then limit else 0
  }

  /** Hits passed in the minute, and what the current stay may still add to them. */
  ghost predicate InBudget(hits: seq<Hit>, key: string, minute: nat, limit: nat) {
    var passed, count := Passed(MemoryVerdict, hits, key, minute), CountIn(MemoryAfter(hits), key, minute);
    var budget := Budget(hits, key, minute, limit);
    passed <= budget && (StandsAt(hits, key) == Some(minute) ==> count <= limit && passed + (limit - count) <= budget)
  }

  lemma {:induction false} BudgetHit(before: seq<Hit>, last: Hit, limit: nat)
    requires InBudget(before, last.key, last.Minute(), limit) && last.Limit() <= limit
    ensures InBudget(before + [last], last.key, last.Minute(), limit)
  {
    var hits := before + [last];
    assert hits[..|hits| - 1] == before;
    MemoryStep(MemoryAfter(before), last, last.key);
    WindowStands(before, last.key);
    PruningInvisible(MemoryAfter(before), last.key, last.Minute());
  }

  lemma {:induction false} BudgetOther(before: seq<Hit>, last: Hit, key: string, minute: nat, limit: nat)
    requires InBudget(before, key, minute, limit) && !(last.key == key && last.Minute() == minute)
    ensures InBudget(before + [last], key, minute, limit)
  {
    var hits := before + [last];
    assert hits[..|hits| - 1] == before;
    MemoryStep(MemoryAfter(before), last, key);
    WindowStands(before, key);
  }

  lemma {:induction false} StayBudget(hits: seq<Hit>, key: string, minute: nat, limit: nat)
    requires forall i :: 0 <= i < |hits| && hits[i].key == key && hits[i].Minute() == minute ==>
               hits[i].Limit() <= limit
    ensures InBudget(hits, key, minute, limit)
  {
    if hits != [] {
      var n := |hits| - 1;
      var before, last := hits[..n], hits[n];
      assert hits == before + [last];
      StayBudget(before, key, minute, limit);
      if last.key == key && last.Minute() == minute {
        BudgetHit(before, last, limit);
      } else {
        BudgetOther(before, last, key, minute, limit);
      }
    }
  }

  lemma {:induction false} OrderedOneStay(hits: seq<Hit>, key: string, minute: nat)
    requires MinutesInOrder(hits)
    ensures Stays(hits, key, minute) <= 1
    ensures Stays(hits, key, minute) <= Attempts(hits, key, minute)
  {
    if hits != [] {
      var n := |hits| - 1;
      OrderedPrefix(hits, n);
      OrderedOneStay(hits[..n], key, minute);
      if hits[n].Minute() == minute {
        OrderedRemembers(hits[..n], key, minute);
      }
    }
  }

  /** The memory limiter passes no more hits of a key in a minute than that for every stay of its
      window there, however clocks and limits change; while minutes come in order, for one. */
  lemma {:induction false} MemoryAtMostLimit(hits: seq<Hit>, key: string, minute: nat, limit: nat)
    requires forall i :: 0 <= i < |hits| && hits[i].key == key && hits[i].Minute() == minute ==>
               hits[i].Limit() <= limit
    ensures Passed(MemoryVerdict, hits, key, minute) <= limit * Stays(hits, key, minute)
    ensures MinutesInOrder(hits) ==> Passed(MemoryVerdict, hits, key, minute) <= limit
  {
    StayBudget(hits, key, minute, limit);
    if MinutesInOrder(hits) {
      OrderedOneStay(hits, key, minute);
    }
  }

  /** Raising a limit after a rejection lets the memory limiter pass a hit that Redis rejects:
      it did not count the rejected one. */
  lemma {:induction false} RaisedLimitDiffers(key: string)
    ensures var hits := [Hit(key, 1, 0), Hit(key, 1, 0)];
            MemoryVerdict(hits, Hit(key, 2, 0)).Ok? && RedisVerdict(hits, Hit(key, 2, 0)).Err?
  {
    var a := Hit(key, 1, 0);
    var hits := [a, a];
    assert hits[..1] == [a] && [a][..0] == [];
    assert MemoryAfter([a]) == map[key := Window(0, 1)];
    assert MemoryAfter(hits) == map[key := Window(0, 1)];
    assert RedisAfter([a]) == map[(key, 0) := Counter(1, 90)];
    assert RedisAfter(hits) == map[(key, 0) := Counter(2, 90)];
  }

  /** Returning to a minute that the key has left finds it forgotten. */
  lemma {:induction false} ClockStepBackDiffers(key: string)
    ensures var hits := [Hit(key, 1, 60), Hit(key, 1, 0)];
            MemoryVerdict(hits, Hit(key, 1, 60)).Ok? && RedisVerdict(hits, Hit(key, 1, 60)).Err?
  {
    var a, b := Hit(key, 1, 60), Hit(key, 1, 0);
    var hits := [a, b];
    assert hits[..1] == [a] && [a][..0] == [];
    assert MemoryAfter([a]) == map[key := Window(1, 1)];
    assert MemoryAfter(hits) == map[key := Window(0, 1)];
    assert RedisAfter([a]) == map[(key, 1) := Counter(1, 150)];
    assert RedisAfter(hits) == map[(key, 1) := Counter(1, 150), (key, 0) := Counter(1, 90)];
  }
}
