/** Envelope encryption of `crates/crypto`: customer keys in the mock KMS wrap an organization's
    data key, the data key encrypts field blobs, and rotation re-wraps the data key.

    AES-GCM and Base64 are parameters; all that is used of them is that decryption undoes
    encryption, that a ciphertext is 16 bytes longer than its plaintext, and that decoding
    undoes encoding. Random values are parameters too. */
module Crypto {
  import opened Common

  type Byte = x: int | 0 <= x < 256
  type Bytes = seq<Byte>
  type Key = Bytes
  type CmkId = string

  const VERSION: Byte := 1
  const NONCE_LEN := 12
  const TAG_LEN := 16

  /** The AEAD and the text encoding. */
  datatype Suite = Suite(
    seal: (Key, Bytes, Bytes) -> Bytes,
    open: (Key, Bytes, Bytes) -> Option<Bytes>,
    encode: Bytes -> string,
    decode: string -> Option<Bytes>)

  ghost predicate Lawful(suite: Suite) {
    && (forall k: Key, n: Bytes, p: Bytes ::
          && suite.open(k, n, suite.seal(k, n, p)) == Some(p)
          && |suite.seal(k, n, p)| == |p| + TAG_LEN)
    && (forall b: Bytes :: suite.decode(suite.encode(b)) == Some(b))
  }

  datatype CryptoError = BadVersion | DecryptFailed | KeyNotFound(id: CmkId) | KeyRevoked(id: CmkId) | InvalidKey

  datatype KeyState = KeyState(material: Key, revoked: bool)

  type Keys = map<CmkId, KeyState>

  datatype WrappedDek = WrappedDek(version: Byte, cmkId: CmkId, wrappedB64: string)

  // ------------------------------------------------------------ framed blobs

  /** `0x01 || nonce || ciphertext` */
  function Seal(suite: Suite, key: Key, nonce: Bytes, plaintext: Bytes): Bytes {
    [VERSION] + nonce + suite.seal(key, nonce, plaintext)
  }

  function Unseal(suite: Suite, key: Key, blob: Bytes): Result<Bytes, CryptoError> {
    if |blob| < 1 + NONCE_LEN + TAG_LEN || blob[0] != VERSION then
      Err(BadVersion)
    else
      match suite.open(key, blob[1..1 + NONCE_LEN], blob[1 + NONCE_LEN..])
      case Some(p) => Ok(p)
      case None => Err(DecryptFailed)
  }

  lemma {:induction false} UnsealSeal(suite: Suite, key: Key, nonce: Bytes, plaintext: Bytes)
    requires Lawful(suite) && |nonce| == NONCE_LEN
    ensures Unseal(suite, key, Seal(suite, key, nonce, plaintext)) == Ok(plaintext)
  {
  }

  /** A blob opens only with the right version byte and room for nonce and tag; one that is too
      short or has another version is refused as such, and any other failure is the cipher's. */
  lemma {:induction false} UnsealExactly(suite: Suite, key: Key, blob: Bytes)
    ensures Unseal(suite, key, blob) == Err(BadVersion) <==> |blob| < 29 || blob[0] != 1
    ensures |blob| >= 29 && blob[0] == 1 ==>
              match suite.open(key, blob[1..13], blob[13..])
              case Some(p) => Unseal(suite, key, blob) == Ok(p)
              case None => Unseal(suite, key, blob) == Err(DecryptFailed)
  {
  }

  // ---------------------------------------------------------------- the KMS

  function LiveKey(keys: Keys, id: CmkId): Result<Key, CryptoError> {
    if id !in keys then Err(KeyNotFound(id))
    else if keys[id].revoked then Err(KeyRevoked(id))
    else Ok(keys[id].material)
  }

  function Wrap(suite: Suite, keys: Keys, id: CmkId, nonce: Bytes, plaintext: Bytes): Result<Bytes, CryptoError> {
    match LiveKey(keys, id)
    case Ok(material) => Ok(Seal(suite, material, nonce, plaintext))
    case Err(e) => Err(e)
  }

  function Unwrap(suite: Suite, keys: Keys, id: CmkId, wrapped: Bytes): Result<Bytes, CryptoError> {
    match LiveKey(keys, id)
    case Ok(material) => Unseal(suite, material, wrapped)
    case Err(e) => Err(e)
  }

  /** Decoding and unwrapping a stored data key, as `rewrap_dek` and `from_wrapped` begin. */
  function UnwrapStored(suite: Suite, keys: Keys, w: WrappedDek): Result<Bytes, CryptoError> {
    match suite.decode(w.wrappedB64)
    case Some(raw) => Unwrap(suite, keys, w.cmkId, raw)
    case None => Err(InvalidKey)
  }

  function WrapStored(suite: Suite, keys: Keys, id: CmkId, nonce: Bytes, dek: Bytes): Result<WrappedDek, CryptoError> {
    match Wrap(suite, keys, id, nonce, dek)
    case Ok(wrapped) => Ok(WrappedDek(VERSION, id, suite.encode(wrapped)))
    case Err(e) => Err(e)
  }

  function RewrapDek(suite: Suite, keys: Keys, previous: WrappedDek, newCmk: CmkId, nonce: Bytes): Result<WrappedDek,
                     CryptoError> {
    match UnwrapStored(suite, keys, previous)
    case Ok(dek) => WrapStored(suite, keys, newCmk, nonce, dek)
    case Err(e) => Err(e)
  }

  /** `OrgDataKey::from_wrapped`: the data key, if it can be had and has 32 bytes. */
  function FromWrapped(suite: Suite, keys: Keys, w: WrappedDek): Result<Key, CryptoError> {
    match UnwrapStored(suite, keys, w)
    case Ok(dek) => if |dek| != 32 then Err(InvalidKey) else Ok(dek)
    case Err(e) => Err(e)
  }

  /** Which keys wrap and unwrap, and which error says that one does not. */
  lemma {:induction false} KmsExactly(suite: Suite, keys: Keys, id: CmkId, nonce: Bytes, data: Bytes)
    ensures id !in keys ==>
              Wrap(suite, keys, id, nonce, data) == Unwrap(suite, keys, id, data) == Err(KeyNotFound(id))
    ensures id in keys && keys[id].revoked ==>
              Wrap(suite, keys, id, nonce, data) == Unwrap(suite, keys, id, data) == Err(KeyRevoked(id))
    ensures id in keys && !keys[id].revoked ==>
              && Wrap(suite, keys, id, nonce, data) == Ok([1] + nonce + suite.seal(keys[id].material, nonce, data))
              && Unwrap(suite, keys, id, data) == Unseal(suite, keys[id].material, data)
  {
  }

  /** A stored wrap names its customer key and version 1; reading one back yields a data key of 32
      bytes or an error, `InvalidKey` if it is no Base64 or holds anything else. */
  lemma {:induction false} StoredExactly(suite: Suite, keys: Keys, id: CmkId, nonce: Bytes, dek: Bytes, w: WrappedDek)
    ensures var r := WrapStored(suite, keys, id, nonce, dek); r.Ok? ==> r.value.version == 1 && r.value.cmkId == id
    ensures suite.decode(w.wrappedB64).None? ==> FromWrapped(suite, keys, w) == Err(InvalidKey)
    ensures suite.decode(w.wrappedB64).Some? ==>
              match Unwrap(suite, keys, w.cmkId, suite.decode(w.wrappedB64).value)
              case Ok(raw) => FromWrapped(suite, keys, w) == if |raw| == 32 then Ok(raw) else Err(InvalidKey)
              case Err(e) => FromWrapped(suite, keys, w) == Err(e)
  {
  }

  class MockKms {
    var keys: Keys

    constructor ()
      ensures keys == map[]
    {
      keys := map[];
    }

    /** Inserts: an id that is already there is overwritten. */
    method CreateKey(id: CmkId, material: Key)
      modifies this
      ensures keys == old(keys)[id := KeyState(material, false)]
    {
      keys := keys[id := KeyState(material, false)];
    }

    method Revoke(id: CmkId) returns (r: Result<(), CryptoError>)
      modifies this
      ensures id !in old(keys) ==> r == Err(KeyNotFound(id)) && keys == old(keys)
      ensures id in old(keys) ==> r.Ok? && keys == old(keys)[id := old(keys)[id].(revoked := true)]
    {
      if id !in keys {
        return Err(KeyNotFound(id));
      }
      keys := keys[id := keys[id].(revoked := true)];
      r := Ok(());
    }

    /** `rotate_org_key`, with the new key's id and material and the wrap nonce as inputs. The
        revocation cannot fail any more once the data key has been unwrapped. */
    method RotateOrgKey(suite: Suite, previous: WrappedDek, newId: CmkId, material: Key, nonce: Bytes, revokeOld: bool)
      returns (r: Result<WrappedDek, CryptoError>)
      modifies this
      ensures (keys, r) == Rotated(suite, old(keys), previous, newId, material, nonce, revokeOld)
    {
      CreateKey(newId, material);
      r := RewrapDek(suite, keys, previous, newId, nonce);
      if r.Ok? && revokeOld {
        var revoked := Revoke(previous.cmkId);
        assert revoked.Ok?;
      }
    }
  }

  /** The outcome of a rotation on the key map. */
  function Rotated(suite: Suite, keys: Keys, previous: WrappedDek, newId: CmkId, material: Key, nonce: Bytes,
                   revokeOld: bool)
    : (Keys, Result<WrappedDek, CryptoError>)
  {
    var created := keys[newId := KeyState(material, false)];
    var r := RewrapDek(suite, created, previous, newId, nonce);
    if r.Ok? && revokeOld && previous.cmkId in created
    then (created[previous.cmkId := created[previous.cmkId].(revoked := true)], r)
    else (created, r)
  }

  // --------------------------------------------------------------- histories

  /** An organization: the KMS, every wrap of its data key ever stored (the last is the
      current one), and every field blob with the plaintext it was made from. */
  datatype Org = Org(keys: Keys, wraps: seq<WrappedDek>, blobs: seq<(Bytes, Bytes)>)

  datatype Op =
    | Create(id: CmkId, material: Key)
    | Revoking(id: CmkId)
    | Rotate(from: nat, newId: CmkId, newMaterial: Key, nonce: Bytes, revokeOld: bool)
    | Encrypt(fieldNonce: Bytes, plaintext: Bytes)

  /** New key ids are new; nonces have 12 bytes. */
  predicate Legal(org: Org, op: Op) {
    match op
    case Create(id, _) => id !in org.keys
    case Revoking(_) => true
    case Rotate(from, newId, _, nonce, _) => from < |org.wraps| && newId !in org.keys && |nonce| == NONCE_LEN
    case Encrypt(nonce, _) => org.wraps != [] && |nonce| == NONCE_LEN
  }

  function Apply(suite: Suite, org: Org, op: Op): Org
    requires Legal(org, op)
  {
    match op
    case Create(id, material) => org.(keys := org.keys[id := KeyState(material, false)])
    case Revoking(id) =>
      if id in org.keys then org.(keys := org.keys[id := org.keys[id].(revoked := true)]) else org
    case Rotate(from, newId, material, nonce, revokeOld) =>
      var (keys, r) := Rotated(suite, org.keys, org.wraps[from], newId, material, nonce, revokeOld);
      org.(keys := keys, wraps := if r.Ok? then org.wraps + [r.value] else org.wraps)
    case Encrypt(nonce, plaintext) =>
      match FromWrapped(suite, org.keys, org.wraps[|org.wraps| - 1])
      case Ok(dek) => org.(blobs := org.blobs + [(plaintext, Seal(suite, dek, nonce, plaintext))])
      case Err(_) => org
  }

  predicate LegalRun(suite: Suite, org: Org, ops: seq<Op>)
    decreases |ops|
  {
    ops == [] || (Legal(org, ops[0]) && LegalRun(suite, Apply(suite, org, ops[0]), ops[1..]))
  }

  function Run(suite: Suite, org: Org, ops: seq<Op>): Org
    requires LegalRun(suite, org, ops)
    decreases |ops|
  {
    if ops == [] then org else Run(suite, Apply(suite, org, ops[0]), ops[1..])
  }

  /** w holds the data key under its customer key. */
  ghost predicate Holds(suite: Suite, keys: Keys, w: WrappedDek, dek: Key) {
    && w.cmkId in keys
    && exists nonce: Bytes :: |nonce| == NONCE_LEN
         && w.wrappedB64 == suite.encode(Seal(suite, keys[w.cmkId].material, nonce, dek))
  }

  ghost predicate Inv(suite: Suite, org: Org, dek: Key) {
    && |dek| == 32
    && (forall w <- org.wraps :: Holds(suite, org.keys, w, dek))
    && (forall b <- org.blobs :: exists nonce: Bytes :: |nonce| == NONCE_LEN && b.1 == Seal(suite, dek, nonce, b.0))
  }

  /** A stored wrap yields the data key exactly while its customer key is live. */
  lemma {:induction false} HoldsUnwraps(suite: Suite, keys: Keys, w: WrappedDek, dek: Key)
    requires Lawful(suite) && Holds(suite, keys, w, dek)
    ensures UnwrapStored(suite, keys, w) == if keys[w.cmkId].revoked then Err(KeyRevoked(w.cmkId)) else Ok(dek)
  {
  }

  /** Key material is never replaced, keys never disappear and revocations are never undone. */
  ghost predicate KeysKept(a: Keys, b: Keys) {
    forall id <- a :: id in b && b[id].material == a[id].material && (a[id].revoked ==> b[id].revoked)
  }

  lemma {:induction false} HoldsKept(suite: Suite, a: Keys, b: Keys, w: WrappedDek, dek: Key)
    requires KeysKept(a, b) && Holds(suite, a, w, dek)
    ensures Holds(suite, b, w, dek)
  {
  }

  lemma {:induction false} ApplyKeepsKeys(suite: Suite, org: Org, op: Op)
    requires Legal(org, op)
    ensures KeysKept(org.keys, Apply(suite, org, op).keys)
  {
  }

  lemma {:induction false} RotationHolds(suite: Suite, org: Org, op: Op, dek: Key)
    requires Lawful(suite) && Inv(suite, org, dek) && Legal(org, op) && op.Rotate?
    ensures forall w <- Apply(suite, org, op).wraps :: Holds(suite, Apply(suite, org, op).keys, w, dek)
  {
    var Rotate(from, newId, material, nonce, revokeOld) := op;
    var after := Apply(suite, org, op);
    ApplyKeepsKeys(suite, org, op);
    forall w | w in org.wraps
      ensures Holds(suite, after.keys, w, dek)
    {
      HoldsKept(suite, org.keys, after.keys, w, dek);
    }
    var created := org.keys[newId := KeyState(material, false)];
    var previous := org.wraps[from];
    assert Holds(suite, org.keys, previous, dek);
    HoldsKept(suite, org.keys, created, previous, dek);
    HoldsUnwraps(suite, created, previous, dek);
    if RewrapDek(suite, created, previous, newId, nonce).Ok? {
      var w := RewrapDek(suite, created, previous, newId, nonce).value;
      assert after.keys[newId].material == material;
      assert w.wrappedB64 == suite.encode(Seal(suite, material, nonce, dek));
      assert Holds(suite, after.keys, w, dek);
    }
  }

  lemma {:induction false} EncryptionHolds(suite: Suite, org: Org, op: Op, dek: Key)
    requires Lawful(suite) && Inv(suite, org, dek) && Legal(org, op) && op.Encrypt?
    ensures Inv(suite, Apply(suite, org, op), dek)
  {
    var w := org.wraps[|org.wraps| - 1];
    assert w in org.wraps;
    HoldsUnwraps(suite, org.keys, w, dek);
    var after := Apply(suite, org, op);
    forall b | b in after.blobs
      ensures exists nonce: Bytes :: |nonce| == NONCE_LEN && b.1 == Seal(suite, dek, nonce, b.0)
    {
      if b !in org.blobs {
        assert b.1 == Seal(suite, dek, op.fieldNonce, b.0);
      }
    }
  }

  lemma {:induction false} ApplyKeeps(suite: Suite, org: Org, op: Op, dek: Key)
    requires Lawful(suite) && Inv(suite, org, dek) && Legal(org, op)
    ensures Inv(suite, Apply(suite, org, op), dek)
  {
    if op.Rotate? {
      RotationHolds(suite, org, op, dek);
    } else if op.Encrypt? {
      EncryptionHolds(suite, org, op, dek);
    } else {
      ApplyKeepsKeys(suite, org, op);
      forall w | w in org.wraps
        ensures Holds(suite, Apply(suite, org, op).keys, w, dek)
      {
        HoldsKept(suite, org.keys, Apply(suite, org, op).keys, w, dek);
      }
    }
  }

  lemma {:induction false} RunKeeps(suite: Suite, org: Org, ops: seq<Op>, dek: Key)
    requires Lawful(suite) && Inv(suite, org, dek) && LegalRun(suite, org, ops)
    ensures Inv(suite, Run(suite, org, ops), dek)
    decreases |ops|
  {
    if ops != [] {
      ApplyKeeps(suite, org, ops[0], dek);
      RunKeeps(suite, Apply(suite, org, ops[0]), ops[1..], dek);
    }
  }

  lemma {:induction false} RunKeepsKeys(suite: Suite, org: Org, ops: seq<Op>)
    requires LegalRun(suite, org, ops)
    ensures KeysKept(org.keys, Run(suite, org, ops).keys)
    decreases |ops|
  {
    if ops != [] {
      ApplyKeepsKeys(suite, org, ops[0]);
      RunKeepsKeys(suite, Apply(suite, org, ops[0]), ops[1..]);
    }
  }

  /** The organization right after `generate_wrapped_dek` under a live customer key. */
  ghost predicate Generated(suite: Suite, org: Org, dek: Key) {
    && |dek| == 32 && org.blobs == [] && |org.wraps| == 1
    && exists id, nonce :: |nonce| == NONCE_LEN && WrapStored(suite, org.keys, id, nonce, dek) == Ok(org.wraps[0])
  }

  /** Rotation preserves data: after any history, every wrap of the data key whose customer key
      is live opens every blob ever written, and a wrap whose customer key is revoked opens
      nothing. */
  lemma {:induction false} RotationPreservesData(suite: Suite, org: Org, ops: seq<Op>, dek: Key, w: WrappedDek)
    requires Lawful(suite) && Generated(suite, org, dek) && LegalRun(suite, org, ops)
    requires w in Run(suite, org, ops).wraps
    ensures var end := Run(suite, org, ops);
            && w.cmkId in end.keys
            && (if end.keys[w.cmkId].revoked then FromWrapped(suite, end.keys, w) == Err(KeyRevoked(w.cmkId))
                else FromWrapped(suite, end.keys, w) == Ok(dek))
            && (forall b <- end.blobs :: Unseal(suite, dek, b.1) == Ok(b.0))
  {
    var end := Run(suite, org, ops);
    var id, nonce :| |nonce| == NONCE_LEN && WrapStored(suite, org.keys, id, nonce, dek) == Ok(org.wraps[0]);
    assert org.wraps[0].wrappedB64 == suite.encode(Seal(suite, org.keys[id].material, nonce, dek));
    assert Inv(suite, org, dek);
    RunKeeps(suite, org, ops, dek);
    HoldsUnwraps(suite, end.keys, w, dek);
    forall b | b in end.blobs
      ensures Unseal(suite, dek, b.1) == Ok(b.0)
    {
      var n: Bytes :| |n| == NONCE_LEN && b.1 == Seal(suite, dek, n, b.0);
      UnsealSeal(suite, dek, n, b.0);
    }
  }

  /** A revoked key never wraps or unwraps again, in any continuation. */
  lemma {:induction false} RevokedForever(suite: Suite, org: Org, ops: seq<Op>, id: CmkId, nonce: Bytes, data: Bytes)
    requires LegalRun(suite, org, ops) && id in org.keys && org.keys[id].revoked
    ensures var end := Run(suite, org, ops);
            && Wrap(suite, end.keys, id, nonce, data) == Err(KeyRevoked(id))
            && Unwrap(suite, end.keys, id, data) == Err(KeyRevoked(id))
  {
    RunKeepsKeys(suite, org, ops);
  }

  /** Rotation fails exactly when the old wrap's customer key is revoked, and then changes no
      existing key; when it succeeds it revokes at most the old key and yields a live wrap. */
  lemma {:induction false} RotationOutcome(
      suite: Suite, keys: Keys, previous: WrappedDek, dek: Key, newId: CmkId, material: Key, nonce: Bytes,
      revokeOld: bool)
    requires Lawful(suite) && Holds(suite, keys, previous, dek) && newId !in keys && |nonce| == NONCE_LEN
    ensures var (after, r) := Rotated(suite, keys, previous, newId, material, nonce, revokeOld);
            && (r.Err? <==> keys[previous.cmkId].revoked)
            && (r.Err? ==> after == keys[newId := KeyState(material, false)])
            && (r.Ok? ==> forall id <- keys ::
                  && id in after
                  && after[id] == (if id == previous.cmkId && revokeOld then keys[id].(revoked := true) else keys[id]))
            && (r.Ok? ==> UnwrapStored(suite, after, r.value) == Ok(dek))
  {
  }

  /** Ids must be new: creating a key under a revoked key's id brings the id back to life. */
  lemma {:induction false} CollisionRevives(suite: Suite, keys: Keys, id: CmkId, material: Key, nonce: Bytes,
                                            data: Bytes)
    requires id in keys && keys[id].revoked
    ensures Wrap(suite, keys, id, nonce, data).Err?
    ensures Wrap(suite, keys[id := KeyState(material, false)], id, nonce, data).Ok?
  {
  }
}
