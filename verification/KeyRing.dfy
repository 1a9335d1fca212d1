/** The JWT signing keys of `crates/auth-token`: upserts and retirements keep at most one key
    flagged active, and the JWKS document lists every key once. */
module KeyRing {
  import opened Common

  type Kid = string

  datatype SigningKey = SigningKey(kid: Kid, secret: string, active: bool)

  datatype TokenError = NoActiveKey | UnknownKid(kid: Kid)

  /** The ring as a value. */
  datatype State = State(keys: map<Kid, SigningKey>, activeKid: Option<Kid>)

  /** Keys are stored under their own kid, a flagged key is the one `activeKid` names, and the
      named key exists. The named key need not be flagged: the gateway upserts the keys it
      fetches as inactive. */
  ghost predicate Inv(s: State) {
    && (forall k <- s.keys :: s.keys[k].kid == k)
    && (forall k <- s.keys | s.keys[k].active :: s.activeKid == Some(k))
    && (s.activeKid.Some? ==> s.activeKid.value in s.keys)
  }

  function Deactivated(keys: map<Kid, SigningKey>, except: Kid): map<Kid, SigningKey> {
    map k | k in keys :: if keys[k].kid != except then keys[k].(active := false) else keys[k]
  }

  function Upserted(s: State, key: SigningKey): State {
    if key.active
    then State(Deactivated(s.keys, key.kid)[key.kid := key], Some(key.kid))
    else s.(keys := s.keys[key.kid := key])
  }

  function Unflagged(keys: map<Kid, SigningKey>, kid: Kid): map<Kid, SigningKey> {
    if kid in keys then keys[kid := keys[kid].(active := false)] else keys
  }

  /** The result of searching the ring for a flagged key: any that the hash map yields. */
  ghost predicate Found(keys: map<Kid, SigningKey>, found: Option<Kid>) {
    if found.Some? then exists k <- keys :: keys[k].active && keys[k].kid == found.value
    else forall k <- keys :: !keys[k].active
  }

  /** Retiring takes the flag off the key; if it was the named one, another flagged key is
      searched for. */
  ghost predicate Retires(s: State, kid: Kid, t: State) {
    && t.keys == Unflagged(s.keys, kid)
    && (if s.activeKid == Some(kid) then Found(t.keys, t.activeKid) else t.activeKid == s.activeKid)
  }

  /** The entries of a document, one per key. */
  datatype Jwk = Jwk(kid: Kid, secret: string)

  ghost predicate Enumerates(order: seq<Kid>, keys: map<Kid, SigningKey>) {
    && (forall i :: 0 <= i < |order| ==> order[i] in keys)
    && (forall k <- keys :: k in order)
    && (forall i, j :: 0 <= i < j < |order| ==> order[i] != order[j])
  }

  class KeyRing {
    var keys: map<Kid, SigningKey>
    var activeKid: Option<Kid>

    ghost function View(): State
      reads this
    {
      State(keys, activeKid)
    }

    constructor ()
      ensures View() == State(map[], None)
    {
      keys, activeKid := map[], None;
    }

    method Upsert(key: SigningKey)
      modifies this
      ensures View() == Upserted(old(View()), key)
    {
      if key.active {
        activeKid := Some(key.kid);
        keys := map k | k in keys :: if keys[k].kid != key.kid then keys[k].(active := false) else keys[k];
      }
      keys := keys[key.kid := key];
    }

    method Retire(kid: Kid)
      modifies this
      ensures Retires(old(View()), kid, View())
    {
      if kid in keys {
        keys := keys[kid := keys[kid].(active := false)];
      }
      if activeKid == Some(kid) {
        activeKid := None;
        if k :| k in keys && keys[k].active {
          activeKid := Some(keys[k].kid);
        }
      }
    }

    method Active() returns (r: Result<SigningKey, TokenError>)
      ensures r == if activeKid.Some? && activeKid.value in keys then Ok(keys[activeKid.value]) else Err(NoActiveKey)
    {
      if activeKid.None? || activeKid.value !in keys {
        return Err(NoActiveKey);
      }
      r := Ok(keys[activeKid.value]);
    }

    /** `jwks_json`, for whatever order the hash map yields its values in. */
    method JwksJson(order: seq<Kid>) returns (all: seq<Jwk>)
      requires Inv(View()) && Enumerates(order, keys)
      ensures ListsEachOnce(all, keys)
    {
      all := [];
      for i := 0 to |order|
        invariant Collected(all, keys, activeKid, order[..i])
      {
        var k := keys[order[i]];
        NextKid(order, keys, i);
        CollectedNext(all, keys, activeKid, order[..i], order[i]);
        if k.active || activeKid == Some(k.kid) {
          all := all + [Jwk(k.kid, k.secret)];
        }
      }
      assert order[..|order|] == order;
      CollectedAll(all, keys, activeKid, order);
      // Keys that are not flagged are appended unless they are listed already.
      for i := 0 to |order|
        invariant Appended(all, keys, activeKid, order[..i])
      {
        var k := keys[order[i]];
        NextKid(order, keys, i);
        AppendedNext(all, keys, activeKid, order[..i], order[i]);
        if !k.active && !exists x <- all :: x.kid == k.kid {
          all := all + [Jwk(k.kid, k.secret)];
        }
      }
      assert order[..|order|] == order;
    }
  }

  lemma {:induction false} NextKid(order: seq<Kid>, keys: map<Kid, SigningKey>, i: nat)
    requires Enumerates(order, keys) && i < |order|
    ensures order[..i + 1] == order[..i] + [order[i]] && order[i] !in order[..i] && order[i] in keys
  {
  }

  lemma {:induction false} ListedGrows(all: seq<Jwk>, x: Jwk, k: Kid)
    requires Listed(all, k) || x.kid == k
    ensures Listed(all + [x], k)
  {
    if x.kid == k {
      assert (all + [x])[|all|].kid == k;
    } else {
      var i :| 0 <= i < |all| && all[i].kid == k;
      assert (all + [x])[i].kid == k;
    }
  }

  lemma {:induction false} SoundGrows(all: seq<Jwk>, keys: map<Kid, SigningKey>, x: Jwk)
    requires Sound(all, keys) && x.kid in keys && x.secret == keys[x.kid].secret && !Listed(all, x.kid)
    ensures Sound(all + [x], keys)
  {
  }

  /** One step of the first list: flagged keys and the named one. */
  lemma {:induction false} CollectedNext(all: seq<Jwk>, keys: map<Kid, SigningKey>, activeKid: Option<Kid>,
                                         seen: seq<Kid>, kid: Kid)
    requires Collected(all, keys, activeKid, seen) && kid in keys && keys[kid].kid == kid && kid !in seen
    ensures var k := keys[kid];
            Collected(if First(k, activeKid) then all + [Jwk(k.kid, k.secret)] else all, keys, activeKid, seen + [kid])
  {
    var x := Jwk(kid, keys[kid].secret);
    if First(keys[kid], activeKid) {
      assert !Listed(all, kid);
      SoundGrows(all, keys, x);
      forall q | q in seen + [kid] && First(keys[q], activeKid)
        ensures Listed(all + [x], q)
      {
        ListedGrows(all, x, q);
      }
    }
  }

  lemma {:induction false} CollectedAll(all: seq<Jwk>, keys: map<Kid, SigningKey>, activeKid: Option<Kid>,
                                        order: seq<Kid>)
    requires Collected(all, keys, activeKid, order) && forall k <- keys :: k in order
    ensures Appended(all, keys, activeKid, [])
  {
  }

  lemma {:induction false} ListedByKid(all: seq<Jwk>, kid: Kid)
    ensures Listed(all, kid) <==> exists x <- all :: x.kid == kid
  {
    if x :| x in all && x.kid == kid {
      var i :| 0 <= i < |all| && all[i] == x;
    }
  }

  /** One step of the second list: keys that are not flagged, unless they are listed already. */
  lemma {:induction false} AppendedNext(all: seq<Jwk>, keys: map<Kid, SigningKey>, activeKid: Option<Kid>,
                                        seen: seq<Kid>, kid: Kid)
    requires Appended(all, keys, activeKid, seen) && kid in keys && keys[kid].kid == kid
    ensures var k := keys[kid];
            var add := !k.active && !exists x <- all :: x.kid == k.kid;
            Appended(if add then all + [Jwk(k.kid, k.secret)] else all, keys, activeKid, seen + [kid])
  {
    ListedByKid(all, kid);
    if keys[kid].active {
      assert First(keys[kid], activeKid);
    } else if !Listed(all, kid) {
      var x := Jwk(kid, keys[kid].secret);
      SoundGrows(all, keys, x);
      AppendedGrows(all, keys, activeKid, seen, x);
    }
  }

  lemma {:induction false} AppendedGrows(all: seq<Jwk>, keys: map<Kid, SigningKey>, activeKid: Option<Kid>,
                                         seen: seq<Kid>, x: Jwk)
    requires Appended(all, keys, activeKid, seen)
    ensures forall q <- keys | First(keys[q], activeKid) :: Listed(all + [x], q)
    ensures forall q <- seen + [x.kid] :: Listed(all + [x], q)
  {
    forall q | q in keys && First(keys[q], activeKid)
      ensures Listed(all + [x], q)
    {
      ListedGrows(all, x, q);
    }
    forall q | q in seen + [x.kid]
      ensures Listed(all + [x], q)
    {
      ListedGrows(all, x, q);
    }
  }

  ghost predicate Listed(all: seq<Jwk>, k: Kid) {
    exists i :: 0 <= i < |all| && all[i].kid == k
  }

  /** Entries are distinct and taken from the ring. */
  ghost predicate Sound(all: seq<Jwk>, keys: map<Kid, SigningKey>) {
    && (forall i :: 0 <= i < |all| ==> all[i].kid in keys && all[i].secret == keys[all[i].kid].secret)
    && (forall i, j :: 0 <= i < j < |all| ==> all[i].kid != all[j].kid)
  }

  ghost predicate ListsEachOnce(all: seq<Jwk>, keys: map<Kid, SigningKey>) {
    Sound(all, keys) && forall k <- keys :: Listed(all, k)
  }

  ghost predicate First(k: SigningKey, activeKid: Option<Kid>) {
    k.active || activeKid == Some(k.kid)
  }

  ghost predicate Collected(all: seq<Jwk>, keys: map<Kid, SigningKey>, activeKid: Option<Kid>, seen: seq<Kid>) {
    && Sound(all, keys)
    && (forall i :: 0 <= i < |all| ==> all[i].kid in seen)
    && (forall k <- seen :: k in keys && (First(keys[k], activeKid) ==> Listed(all, k)))
  }

  ghost predicate Appended(all: seq<Jwk>, keys: map<Kid, SigningKey>, activeKid: Option<Kid>, seen: seq<Kid>) {
    && Sound(all, keys)
    && (forall k <- keys | First(keys[k], activeKid) :: Listed(all, k))
    && (forall k <- seen :: Listed(all, k))
  }

  // -------------------------------------------------------------------- runs

  datatype Op = Upsert(key: SigningKey) | Retire(kid: Kid)

  ghost predicate Step(s: State, op: Op, t: State) {
    match op
    case Upsert(key) => t == Upserted(s, key)
    case Retire(kid) => Retires(s, kid, t)
  }

  /** The states of one history, first to last, for whatever the searches yielded. */
  ghost predicate History(states: seq<State>, ops: seq<Op>) {
    && |states| == |ops| + 1
    && (forall i :: 0 <= i < |ops| ==> Step(states[i], ops[i], states[i + 1]))
  }

  lemma {:induction false} StepKeeps(s: State, op: Op, t: State)
    requires Inv(s) && Step(s, op, t)
    ensures Inv(t) && s.keys.Keys <= t.keys.Keys
  {
    if op.Retire? {
      SearchFindsNothing(s, op.kid, t);
    }
  }

  /** The search after retiring the named key finds nothing: no other key is flagged. */
  lemma {:induction false} SearchFindsNothing(s: State, kid: Kid, t: State)
    requires Inv(s) && Retires(s, kid, t)
    ensures t.activeKid == if s.activeKid == Some(kid) then None else s.activeKid
    ensures s.activeKid == Some(kid) ==> forall k <- t.keys :: !t.keys[k].active
  {
    if s.activeKid == Some(kid) {
      assert forall k <- t.keys :: !t.keys[k].active;
    }
  }

  /** After any history at most one key is flagged active, it is the one `activeKid` names, and
      no kid has disappeared. */
  lemma {:induction false} RunKeeps(states: seq<State>, ops: seq<Op>, n: nat)
    requires History(states, ops) && Inv(states[0]) && n <= |ops|
    ensures Inv(states[n]) && states[0].keys.Keys <= states[n].keys.Keys
    ensures forall a <- states[n].keys, b <- states[n].keys ::
              states[n].keys[a].active && states[n].keys[b].active ==> a == b
  {
    if n > 0 {
      RunKeeps(states, ops, n - 1);
      StepKeeps(states[n - 1], ops[n - 1], states[n]);
    }
  }

  /** Operation i activates the kid, and no later one before n activates a key or retires it. */
  ghost predicate LastActivation(ops: seq<Op>, n: nat, kid: Kid, i: nat)
    requires n <= |ops|
  {
    && i < n && ops[i].Upsert? && ops[i].key.active && ops[i].key.kid == kid
    && (forall j :: i < j < n ==> !(ops[j].Upsert? && ops[j].key.active) && ops[j] != Retire(kid))
  }

  /** The kid was activated last, and has not been retired since. */
  ghost predicate Current(ops: seq<Op>, n: nat, kid: Kid)
    requires n <= |ops|
  {
    exists i: nat :: LastActivation(ops, n, kid, i)
  }

  lemma {:induction false} NextActivation(ops: seq<Op>, n: nat, m: nat, kid: Kid)
    requires m == n + 1 <= |ops|
    ensures Current(ops, m, kid)
            <==> if ops[n].Upsert? && ops[n].key.active then ops[n].key.kid == kid
                 else ops[n] != Retire(kid) && Current(ops, n, kid)
  {
    if ops[n].Upsert? && ops[n].key.active {
      if ops[n].key.kid == kid {
        assert LastActivation(ops, m, kid, n);
      }
    } else if Current(ops, n, kid) {
      var i: nat :| LastActivation(ops, n, kid, i);
      assert ops[n] != Retire(kid) ==> LastActivation(ops, m, kid, i);
    }
    if Current(ops, m, kid) {
      var i: nat :| LastActivation(ops, m, kid, i);
      assert i < n ==> LastActivation(ops, n, kid, i);
    }
  }

  /** After any history the named key is exactly the one activated last, unless it has been
      retired since; which flagged key a search would prefer never matters. */
  lemma {:induction false} ActiveIsLastActivated(states: seq<State>, ops: seq<Op>, n: nat, kid: Kid)
    requires History(states, ops) && states[0] == State(map[], None) && n <= |ops|
    ensures states[n].activeKid == Some(kid) <==> Current(ops, n, kid)
  {
    if n > 0 {
      var op := ops[n - 1];
      assert Step(states[n - 1], op, states[n]);
      ActiveIsLastActivated(states, ops, n - 1, kid);
      NextActivation(ops, n - 1, n, kid);
      if op.Retire? {
        RunKeeps(states, ops, n - 1);
        SearchFindsNothing(states[n - 1], op.kid, states[n]);
      }
    }
  }

  /** The secret of the last upsert of a kid, if there was one. */
  function LastSecret(ops: seq<Op>, n: nat, kid: Kid): Option<string>
    requires n <= |ops|
  {
    if n == 0 then None
    else
      var last := ops[n - 1];
      if last.Upsert? && last.key.kid == kid then Some(last.key.secret) else LastSecret(ops, n - 1, kid)
  }

  /** After any history the ring verifies with exactly the kids ever upserted, each with the
      secret it was given last: retiring and activating others change no secret. */
  lemma {:induction false} SecretsAreLastUpserted(states: seq<State>, ops: seq<Op>, n: nat, kid: Kid)
    requires History(states, ops) && states[0] == State(map[], None) && n <= |ops|
    ensures var keys := states[n].keys;
            LastSecret(ops, n, kid) == if kid in keys then Some(keys[kid].secret) else None
  {
    if n > 0 {
      SecretsAreLastUpserted(states, ops, n - 1, kid);
      assert Step(states[n - 1], ops[n - 1], states[n]);
    }
  }

  /** Retiring the kid that signs leaves nothing that signs, after any history. */
  lemma {:induction false} RetiringActiveLeavesNone(states: seq<State>, ops: seq<Op>, kid: Kid, t: State)
    requires History(states, ops) && Inv(states[0]) && states[|ops|].activeKid == Some(kid)
    requires Retires(states[|ops|], kid, t)
    ensures t.activeKid == None && forall k <- t.keys :: !t.keys[k].active
  {
    RunKeeps(states, ops, |ops|);
    SearchFindsNothing(states[|ops|], kid, t);
  }

  /** An inactive upsert of the signing kid clears its flag but goes on signing with it. */
  lemma {:induction false} InactiveUpsertStillSigns(s: State, kid: Kid, secret: string)
    requires Inv(s) && s.activeKid == Some(kid)
    ensures var t := Upserted(s, SigningKey(kid, secret, false));
            t.activeKid == Some(kid) && !t.keys[kid].active && forall k <- t.keys :: !t.keys[k].active
  {
  }
}
