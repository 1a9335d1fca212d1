/** The transactional outbox of `crates/outbox` as a protocol: any number of relays and DLQ
    replays run concurrently over one database and one broker, each inside a transaction
    that may abort at any point.

    A transaction's writes stay in its own record until it commits. Publishing is not
    transactional: what reaches the broker log stays there.  */
module OutboxProtocol {
  type Uuid = nat
  type TxId = nat
  type Time = int

  datatype Event = Event(org: Uuid, subject: string, payload: string, idempotencyKey: string)

  /** A row of `outbox_event`; `published` is `published_at IS NOT NULL`. */
  datatype Row = Row(event: Event, createdAt: Time, published: bool)

  /** A row of `outbox_dlq`; `replayed` is `replayed_at IS NOT NULL`. */
  datatype DlqRow = DlqRow(outboxId: Uuid, event: Event, replayed: bool)

  datatype Delivery = Delivery(row: Uuid, subject: string, payload: string)

  /** An open transaction: one `publish_batch` with its uncommitted writes (`marked` rows and
      `dead` DLQ rows), or one `replay_dlq_row`. */
  datatype Tx =
    | Batch(claimed: seq<Uuid>, maxAttempts: nat, pos: nat, attempts: nat, marked: set<Uuid>, dead: map<Uuid, DlqRow>)
    | Replay(dlqId: Uuid, newId: Uuid, at: Time)

  /** Committed tables, row locks, open transactions and the broker log; and, for stating
      properties only, what happened so far: the first row of each chain of replays, the
      transaction that minted each DLQ id, every transaction started, how often each DLQ row
      was replayed, in how many aborted batches each row was, and how many of its deliveries
      the publisher reported as errors. */
  datatype State = State(
    rows: map<Uuid, Row>,
    dlq: map<Uuid, DlqRow>,
    locks: map<Uuid, TxId>,
    dlqLocks: map<Uuid, TxId>,
    open: map<TxId, Tx>,
    log: seq<Delivery>,
    origin: map<Uuid, Uuid>,
    minted: map<Uuid, TxId>,
    started: set<TxId>,
    replays: multiset<Uuid>,
    aborted: multiset<Uuid>,
    unsure: multiset<Uuid>)

  const INIT := State(map[], map[], map[], map[], map[], [], map[], map[], {}, multiset{}, multiset{}, multiset{})

  /** What one `publish` call did: acknowledged; failed; or reported an error although the
      broker had stored the message. */
  datatype Attempt = Acknowledged | Rejected | Unacknowledged

  datatype Step =
    | Insert(id: Uuid, event: Event, at: Time)
    | Claim(tx: TxId, batch: seq<Uuid>, limit: nat, maxAttempts: nat)
    | Publish(tx: TxId, outcome: Attempt, dlqId: Uuid)
    | PassOver(tx: TxId)
    | LockDlq(tx: TxId, dlqId: Uuid, newId: Uuid, at: Time)
    | Commit(tx: TxId)
    | Abort(tx: TxId)

  // ------------------------------------------------------------------- steps

  predicate Claimable(s: State, id: Uuid) {
    id in s.rows && !s.rows[id].published && id !in s.locks
  }

  /** `claim_unpublished`: unpublished rows nobody has locked, oldest first, up to the limit. */
  predicate ClaimedBatch(s: State, batch: seq<Uuid>, limit: nat) {
    && |batch| <= limit
    && (forall i :: 0 <= i < |batch| ==> Claimable(s, batch[i]))
    && (forall i, j :: 0 <= i < j < |batch| ==>
          batch[i] != batch[j] && s.rows[batch[i]].createdAt <= s.rows[batch[j]].createdAt)
    && (forall id <- s.rows | Claimable(s, id) && id !in batch ::
          |batch| == limit && forall c <- batch :: s.rows[c].createdAt <= s.rows[id].createdAt)
  }

  predicate Enabled(s: State, step: Step) {
    match step
    case Insert(id, _, _) => id !in s.rows
    case Claim(tx, batch, limit, _) => tx !in s.started && ClaimedBatch(s, batch, limit)
    case Publish(tx, _, dlqId) =>
      && tx in s.open && s.open[tx].Batch?
      && s.open[tx].pos < |s.open[tx].claimed| && s.open[tx].attempts < s.open[tx].maxAttempts
      && s.open[tx].claimed[s.open[tx].pos] in s.rows
      && dlqId !in s.minted
    case PassOver(tx) =>
      tx in s.open && s.open[tx].Batch? && s.open[tx].pos < |s.open[tx].claimed| && s.open[tx].maxAttempts == 0
    case LockDlq(tx, dlqId, _, _) =>
      tx !in s.started && dlqId in s.dlq && !s.dlq[dlqId].replayed && dlqId !in s.dlqLocks
    case Commit(tx) =>
      && tx in s.open
      && (match s.open[tx]
          case Batch(claimed, _, pos, _, _, _) => pos == |claimed|
          case Replay(dlqId, newId, _) => dlqId in s.dlq && newId !in s.rows && s.dlq[dlqId].outboxId in s.origin)
    case Abort(tx) => tx in s.open
  }

  predicate DeadLetters(b: Tx, ok: bool)
    requires b.Batch?
  {
    !ok && b.attempts + 1 >= b.maxAttempts
  }

  /** One publish attempt for the row at `pos`. The last failing attempt dead-letters the row
      and marks it published, which is what the code does (its comment says the row stays
      unpublished). */
  function AfterAttempt(b: Tx, row: Uuid, event: Event, ok: bool, dlqId: Uuid): Tx
    requires b.Batch?
  {
    if ok then
      b.(pos := b.pos + 1, attempts := 0, marked := b.marked + {row})
    else if !DeadLetters(b, ok) then
      b.(attempts := b.attempts + 1)
    else
      b.(pos := b.pos + 1, attempts := 0, marked := b.marked + {row},
         dead := b.dead[dlqId := DlqRow(row, event, false)])
  }

  function MarkPublished(rows: map<Uuid, Row>, marked: set<Uuid>): map<Uuid, Row> {
    map id | id in rows :: if id in marked then rows[id].(published := true) else rows[id]
  }

  function CommitBatch(s: State, tx: TxId): State
    requires tx in s.open && s.open[tx].Batch?
  {
    var b := s.open[tx];
    s.(rows := MarkPublished(s.rows, b.marked), dlq := s.dlq + b.dead,
       locks := s.locks - (set id | id in b.claimed), open := s.open - {tx})
  }

  function CommitReplay(s: State, tx: TxId): State
    requires tx in s.open && s.open[tx].Replay? && Enabled(s, Commit(tx))
  {
    var Replay(dlqId, newId, at) := s.open[tx];
    var d := s.dlq[dlqId];
    s.(rows := s.rows[newId := Row(d.event, at, false)], dlq := s.dlq[dlqId := d.(replayed := true)],
       dlqLocks := s.dlqLocks - {dlqId}, open := s.open - {tx},
       origin := s.origin[newId := s.origin[d.outboxId]], replays := s.replays + multiset{dlqId})
  }

  function Apply(s: State, step: Step): State
    requires Enabled(s, step)
  {
    match step
    case Insert(id, event, at) =>
      s.(rows := s.rows[id := Row(event, at, false)], origin := s.origin[id := id])
    case Claim(tx, batch, _, maxAttempts) =>
      s.(open := s.open[tx := Batch(batch, maxAttempts, 0, 0, {}, map[])],
         locks := s.locks + (map id | id in batch :: tx), started := s.started + {tx})
    case Publish(tx, outcome, dlqId) =>
      var b := s.open[tx];
      var row := b.claimed[b.pos];
      var event := s.rows[row].event;
      var delivery := Delivery(row, event.subject, event.payload);
      s.(open := s.open[tx := AfterAttempt(b, row, event, outcome.Acknowledged?, dlqId)],
         log := if outcome.Rejected? then s.log else s.log + [delivery],
         minted := if DeadLetters(b, outcome.Acknowledged?) then s.minted[dlqId := tx] else s.minted,
         unsure := if outcome.Unacknowledged? then s.unsure + multiset{row} else s.unsure)
    case PassOver(tx) =>
      s.(open := s.open[tx := s.open[tx].(pos := s.open[tx].pos + 1)])
    case LockDlq(tx, dlqId, newId, at) =>
      s.(open := s.open[tx := Replay(dlqId, newId, at)], dlqLocks := s.dlqLocks[dlqId := tx],
         started := s.started + {tx})
    case Commit(tx) =>
      if s.open[tx].Batch? then CommitBatch(s, tx) else CommitReplay(s, tx)
    case Abort(tx) =>
      match s.open[tx]
      case Batch(claimed, _, _, _, _, _) =>
        s.(locks := s.locks - (set id | id in claimed), open := s.open - {tx}, aborted := s.aborted + multiset(claimed))
      case Replay(dlqId, _, _) =>
        s.(dlqLocks := s.dlqLocks - {dlqId}, open := s.open - {tx})
  }

  // -------------------------------------------------------------------- runs

  predicate Legal(s: State, steps: seq<Step>)
    decreases |steps|
  {
    steps == [] || (Enabled(s, steps[0]) && Legal(Apply(s, steps[0]), steps[1..]))
  }

  function Exec(s: State, steps: seq<Step>): State
    requires Legal(s, steps)
    decreases |steps|
  {
    if steps == [] then s else Exec(Apply(s, steps[0]), steps[1..])
  }

  // --------------------------------------------------------------- invariant

  /** How often a row was delivered. */
  function Deliveries(log: seq<Delivery>, row: Uuid): nat {
    if log == [] then 0
    else Deliveries(log[..|log| - 1], row) + if log[|log| - 1].row == row then 1 else 0
  }

  ghost predicate DeadLettered(dlq: map<Uuid, DlqRow>, row: Uuid) {
    exists d <- dlq :: dlq[d].outboxId == row
  }

  /** Rows the batch is done with. */
  function Handled(b: Tx): set<Uuid>
    requires b.Batch? && b.pos <= |b.claimed|
  {
    if b.maxAttempts == 0 then {} else set i | 0 <= i < b.pos :: b.claimed[i]
  }

  ghost predicate BatchShape(b: Tx)
    requires b.Batch?
  {
    && b.pos <= |b.claimed|
    && (b.maxAttempts == 0 ==> b.dead == map[])
    && b.marked == Handled(b)
    && (forall i, j :: 0 <= i < j < |b.claimed| ==> b.claimed[i] != b.claimed[j])
  }

  ghost predicate BatchHolds(s: State, tx: TxId, b: Tx)
    requires b.Batch?
  {
    forall id <- b.claimed :: id in s.locks && s.locks[id] == tx && id in s.rows && !s.rows[id].published
  }

  ghost predicate BatchWrites(s: State, tx: TxId, b: Tx)
    requires b.Batch?
  {
    && (forall d <- b.dead ::
          && d in s.minted && s.minted[d] == tx && d !in s.dlq
          && b.dead[d].outboxId in b.marked && b.dead[d].outboxId in s.rows
          && b.dead[d].event == s.rows[b.dead[d].outboxId].event && !b.dead[d].replayed)
    && (forall id <- b.marked :: id in b.claimed && (Deliveries(s.log, id) > 0 || DeadLettered(b.dead, id)))
  }

  ghost predicate ReplayHolds(s: State, tx: TxId, r: Tx)
    requires r.Replay?
  {
    && r.dlqId in s.dlqLocks && s.dlqLocks[r.dlqId] == tx
    && r.dlqId in s.dlq && !s.dlq[r.dlqId].replayed
  }

  ghost predicate TxWf(s: State, tx: TxId, open: Tx) {
    && tx in s.started
    && (if open.Batch? then BatchShape(open) && BatchHolds(s, tx, open) && BatchWrites(s, tx, open)
        else ReplayHolds(s, tx, open))
  }

  ghost predicate OpenWf(s: State) {
    forall tx <- s.open :: TxWf(s, tx, s.open[tx])
  }

  ghost predicate LocksWf(s: State) {
    && (forall id <- s.locks ::
          s.locks[id] in s.open && s.open[s.locks[id]].Batch? && id in s.open[s.locks[id]].claimed)
    && (forall d <- s.minted :: s.minted[d] in s.started)
  }

  /** A committed `published_at` means delivered or dead-lettered. */
  ghost predicate PublishedWf(s: State) {
    forall id <- s.rows | s.rows[id].published :: Deliveries(s.log, id) > 0 || DeadLettered(s.dlq, id)
  }

  ghost predicate DlqRowWf(s: State, d: Uuid)
    requires d in s.dlq
  {
    && d in s.minted
    && s.dlq[d].outboxId in s.rows && s.rows[s.dlq[d].outboxId].published
    && s.dlq[d].event == s.rows[s.dlq[d].outboxId].event
    && s.replays[d] == if s.dlq[d].replayed then 1 else 0
  }

  /** DLQ rows copy a published row, and are marked replayed after exactly one replay. */
  ghost predicate DlqWf(s: State) {
    && (forall d <- s.dlq :: DlqRowWf(s, d))
    && (forall d <- s.replays :: d in s.dlq)
  }

  ghost predicate TablesWf(s: State) {
    PublishedWf(s) && DlqWf(s)
  }

  /** Every delivery is of a committed row, unchanged. */
  ghost predicate LogWf(s: State) {
    forall k :: 0 <= k < |s.log| ==>
      && s.log[k].row in s.rows
      && s.log[k].subject == s.rows[s.log[k].row].event.subject
      && s.log[k].payload == s.rows[s.log[k].row].event.payload
  }

  /** Every row leads back to a first row that carries the same event. */
  ghost predicate OriginMap(rows: map<Uuid, Row>, origin: map<Uuid, Uuid>) {
    && origin.Keys == rows.Keys
    && (forall id <- rows ::
          && origin[id] in rows && origin[origin[id]] == origin[id]
          && rows[origin[id]].event == rows[id].event)
  }

  ghost predicate OriginWf(s: State) {
    OriginMap(s.rows, s.origin)
  }

  ghost predicate Live(s: State, id: Uuid)
    requires id in s.rows
  {
    || !s.rows[id].published
    || Deliveries(s.log, id) > 0
    || exists d <- s.dlq :: s.dlq[d].outboxId == id && !s.dlq[d].replayed
  }

  ghost predicate KeptAlive(s: State, root: Uuid)
    requires OriginWf(s)
  {
    exists id <- s.rows :: s.origin[id] == root && Live(s, id)
  }

  ghost predicate NothingLost(s: State)
    requires OriginWf(s)
  {
    forall root <- s.rows | s.origin[root] == root :: KeptAlive(s, root)
  }

  /** The row is marked in some open batch. */
  predicate InFlight(s: State, id: Uuid) {
    && id in s.locks && s.locks[id] in s.open && s.open[s.locks[id]].Batch?
    && id in s.open[s.locks[id]].marked
  }

  ghost predicate RowBounded(s: State, id: Uuid)
    requires id in s.rows
  {
    Deliveries(s.log, id) <= s.aborted[id] + s.unsure[id] + if s.rows[id].published || InFlight(s, id) then 1 else 0
  }

  ghost predicate DuplicatesBounded(s: State) {
    forall id <- s.rows :: RowBounded(s, id)
  }

  ghost predicate Inv(s: State) {
    && OpenWf(s) && LocksWf(s) && TablesWf(s) && LogWf(s)
    && OriginWf(s) && NothingLost(s) && DuplicatesBounded(s)
  }

  // Frames: what a batch, the lost-event and the duplicate invariants need from a step.

  lemma {:induction false} BatchFrame(s: State, t: State, tx: TxId, b: Tx)
    requires b.Batch? && BatchHolds(s, tx, b) && BatchWrites(s, tx, b)
    requires forall id <- b.claimed :: id in t.locks && t.locks[id] == tx
    requires forall id <- b.claimed :: id in t.rows && s.rows[id].event == t.rows[id].event && !t.rows[id].published
    requires forall id <- b.claimed :: Deliveries(s.log, id) <= Deliveries(t.log, id)
    requires forall d <- b.dead :: d in t.minted && t.minted[d] == tx && d !in t.dlq
    ensures BatchHolds(t, tx, b) && BatchWrites(t, tx, b)
  {
  }

  lemma {:induction false} LiveFrame(s: State, t: State, root: Uuid)
    requires OriginWf(s) && OriginWf(t) && KeptAlive(s, root)
    requires forall id <- s.rows :: id in t.rows && t.origin[id] == s.origin[id]
    requires forall id <- s.rows | Live(s, id) :: Live(t, id)
    ensures KeptAlive(t, root)
  {
  }

  lemma {:induction false} OriginExtends(rows: map<Uuid, Row>, origin: map<Uuid, Uuid>, id: Uuid, row: Row, root: Uuid)
    requires OriginMap(rows, origin) && id !in rows
    requires root == id || (root in rows && origin[root] == root && rows[root].event == row.event)
    ensures OriginMap(rows[id := row], origin[id := root])
  {
  }

  lemma {:induction false} SameTablesWf(s: State, t: State)
    requires TablesWf(s) && LogWf(s)
    requires t.rows == s.rows && t.dlq == s.dlq && t.log == s.log && t.replays == s.replays && t.minted == s.minted
    ensures TablesWf(t) && LogWf(t)
  {
  }

  lemma {:induction false} SameTablesKeepAlive(s: State, t: State)
    requires OriginWf(s) && NothingLost(s)
    requires t.rows == s.rows && t.dlq == s.dlq && t.origin == s.origin
    requires t.log == s.log || forall id <- s.rows :: Deliveries(s.log, id) <= Deliveries(t.log, id)
    ensures OriginWf(t) && NothingLost(t)
  {
  }

  lemma {:induction false} NoDeliveries(log: seq<Delivery>, id: Uuid)
    requires forall k :: 0 <= k < |log| ==> log[k].row != id
    ensures Deliveries(log, id) == 0
  {
    if log != [] {
      NoDeliveries(log[..|log| - 1], id);
    }
  }

  // Insert

  lemma {:induction false} InsertOpen(s: State, t: State, id: Uuid, row: Row)
    requires OpenWf(s) && id !in s.rows && t == s.(rows := s.rows[id := row], origin := s.origin[id := id])
    ensures OpenWf(t)
  {
  }

  lemma {:induction false} InsertKeeps(s: State, id: Uuid, event: Event, at: Time)
    requires Inv(s) && Enabled(s, Insert(id, event, at))
    ensures Inv(Apply(s, Insert(id, event, at)))
  {
    var t := Apply(s, Insert(id, event, at));
    InsertOpen(s, t, id, Row(event, at, false));
    NoDeliveries(s.log, id);
    InsertTables(s, t, id, Row(event, at, false));
    InsertLocks(s, t, id, Row(event, at, false));
    InsertDuplicates(s, t, id, Row(event, at, false));
    InsertAlive(s, t, id, Row(event, at, false));
  }

  lemma {:induction false} InsertTables(s: State, t: State, id: Uuid, row: Row)
    requires TablesWf(s)
    requires id !in s.rows && !row.published && t == s.(rows := s.rows[id := row], origin := s.origin[id := id])
    ensures TablesWf(t)
  {
  }

  lemma {:induction false} InsertLocks(s: State, t: State, id: Uuid, row: Row)
    requires LocksWf(s) && LogWf(s)
    requires id !in s.rows && t == s.(rows := s.rows[id := row], origin := s.origin[id := id])
    ensures LocksWf(t) && LogWf(t)
  {
  }

  lemma {:induction false} InsertDuplicates(s: State, t: State, id: Uuid, row: Row)
    requires DuplicatesBounded(s) && Deliveries(s.log, id) == 0
    requires id !in s.rows && !row.published && t == s.(rows := s.rows[id := row], origin := s.origin[id := id])
    ensures DuplicatesBounded(t)
  {
  }

  lemma {:induction false} InsertLive(s: State, t: State, id: Uuid, row: Row)
    requires id !in s.rows && t == s.(rows := s.rows[id := row], origin := s.origin[id := id])
    ensures forall x <- s.rows | Live(s, x) :: Live(t, x)
  {
  }

  lemma {:induction false} InsertAlive(s: State, t: State, id: Uuid, row: Row)
    requires OriginWf(s) && NothingLost(s)
    requires id !in s.rows && !row.published && t == s.(rows := s.rows[id := row], origin := s.origin[id := id])
    ensures OriginWf(t) && NothingLost(t)
  {
    OriginExtends(s.rows, s.origin, id, row, id);
    InsertLive(s, t, id, row);
    forall root | root in t.rows && t.origin[root] == root
      ensures KeptAlive(t, root)
    {
      if root == id {
        assert Live(t, id);
      } else {
        assert KeptAlive(s, root);
        LiveFrame(s, t, root);
      }
    }
  }

  // Claim

  lemma {:induction false} ClaimOpen(s: State, t: State, tx: TxId, batch: seq<Uuid>, limit: nat, maxAttempts: nat)
    requires OpenWf(s) && Enabled(s, Claim(tx, batch, limit, maxAttempts))
    requires t == Apply(s, Claim(tx, batch, limit, maxAttempts))
    ensures OpenWf(t)
  {
    forall x | x in t.open && t.open[x].Batch? && x != tx
      ensures BatchHolds(t, x, t.open[x]) && BatchWrites(t, x, t.open[x])
    {
      BatchFrame(s, t, x, s.open[x]);
    }
    assert BatchHolds(t, tx, t.open[tx]);
    assert BatchWrites(t, tx, t.open[tx]);
  }

  lemma {:induction false} ClaimKeeps(s: State, tx: TxId, batch: seq<Uuid>, limit: nat, maxAttempts: nat)
    requires Inv(s) && Enabled(s, Claim(tx, batch, limit, maxAttempts))
    ensures Inv(Apply(s, Claim(tx, batch, limit, maxAttempts)))
  {
    var t := Apply(s, Claim(tx, batch, limit, maxAttempts));
    ClaimOpen(s, t, tx, batch, limit, maxAttempts);
    SameTablesWf(s, t);
    SameTablesKeepAlive(s, t);
    assert tx !in s.open;
    ClaimLocks(s, t, tx, batch, limit, maxAttempts);
    ClaimDuplicates(s, t, tx, batch, limit, maxAttempts);
  }

  lemma {:induction false} ClaimLocks(s: State, t: State, tx: TxId, batch: seq<Uuid>, limit: nat, maxAttempts: nat)
    requires LocksWf(s) && tx !in s.open && Enabled(s, Claim(tx, batch, limit, maxAttempts))
    requires t == Apply(s, Claim(tx, batch, limit, maxAttempts))
    ensures LocksWf(t)
  {
  }

  lemma {:induction false} ClaimDuplicates(s: State, t: State, tx: TxId, batch: seq<Uuid>, limit: nat, maxAttempts: nat)
    requires LocksWf(s) && tx !in s.open && DuplicatesBounded(s) && Enabled(s, Claim(tx, batch, limit, maxAttempts))
    requires t == Apply(s, Claim(tx, batch, limit, maxAttempts))
    ensures DuplicatesBounded(t)
  {
  }

  // Publish

  /** The row being published is held, unpublished and not yet marked. */
  lemma {:induction false} CurrentRow(s: State, tx: TxId)
    requires OpenWf(s) && tx in s.open && s.open[tx].Batch? && s.open[tx].pos < |s.open[tx].claimed|
    ensures var row := s.open[tx].claimed[s.open[tx].pos];
            && row in s.rows && !s.rows[row].published && row in s.locks && s.locks[row] == tx
            && row !in s.open[tx].marked
  {
  }

  lemma {:induction false} AttemptShape(b: Tx, event: Event, ok: bool, dlqId: Uuid)
    requires b.Batch? && BatchShape(b) && b.pos < |b.claimed| && b.attempts < b.maxAttempts
    ensures BatchShape(AfterAttempt(b, b.claimed[b.pos], event, ok, dlqId))
  {
  }

  lemma {:induction false} PublishLog(s: State, t: State, tx: TxId, outcome: Attempt, dlqId: Uuid, id: Uuid)
    requires Enabled(s, Publish(tx, outcome, dlqId)) && t == Apply(s, Publish(tx, outcome, dlqId))
    ensures var row := s.open[tx].claimed[s.open[tx].pos];
            Deliveries(t.log, id) == Deliveries(s.log, id) + if !outcome.Rejected? && id == row then 1 else 0
  {
  }

  lemma {:induction false} PublishOthers(s: State, t: State, tx: TxId, outcome: Attempt, dlqId: Uuid, x: TxId)
    requires OpenWf(s) && Enabled(s, Publish(tx, outcome, dlqId)) && t == Apply(s, Publish(tx, outcome, dlqId))
    requires x in s.open && x != tx && s.open[x].Batch?
    ensures BatchHolds(t, x, s.open[x]) && BatchWrites(t, x, s.open[x])
  {
    forall id | id in s.open[x].claimed
      ensures Deliveries(s.log, id) <= Deliveries(t.log, id)
    {
      PublishLog(s, t, tx, outcome, dlqId, id);
    }
    BatchFrame(s, t, x, s.open[x]);
  }

  lemma {:induction false} AttemptWrites(t: State, tx: TxId, b: Tx, row: Uuid, event: Event, ok: bool, dlqId: Uuid)
    requires b.Batch? && BatchWrites(t, tx, b) && row in b.claimed && dlqId !in b.dead
    requires row in t.rows && event == t.rows[row].event
    requires DeadLetters(b, ok) ==> dlqId in t.minted && t.minted[dlqId] == tx && dlqId !in t.dlq
    requires ok ==> Deliveries(t.log, row) > 0
    ensures BatchWrites(t, tx, AfterAttempt(b, row, event, ok, dlqId))
  {
  }

  lemma {:induction false} PublishFrame(s: State, t: State, tx: TxId, b: Tx, outcome: Attempt, dlqId: Uuid)
    requires Enabled(s, Publish(tx, outcome, dlqId)) && t == Apply(s, Publish(tx, outcome, dlqId))
    requires b == s.open[tx] && BatchHolds(s, tx, b) && BatchWrites(s, tx, b)
    ensures BatchHolds(t, tx, b) && BatchWrites(t, tx, b)
  {
    forall id | id in b.claimed
      ensures Deliveries(s.log, id) <= Deliveries(t.log, id)
    {
      PublishLog(s, t, tx, outcome, dlqId, id);
    }
    BatchFrame(s, t, tx, b);
  }

  lemma {:induction false} PublishOwn(s: State, t: State, tx: TxId, b: Tx, outcome: Attempt, dlqId: Uuid)
    requires Enabled(s, Publish(tx, outcome, dlqId)) && t == Apply(s, Publish(tx, outcome, dlqId))
    requires b == s.open[tx] && BatchShape(b) && BatchHolds(s, tx, b) && BatchWrites(s, tx, b) && dlqId !in s.dlq
    ensures BatchShape(t.open[tx]) && BatchHolds(t, tx, t.open[tx]) && BatchWrites(t, tx, t.open[tx])
  {
    var row := b.claimed[b.pos];
    var event := s.rows[row].event;
    AttemptShape(b, event, outcome.Acknowledged?, dlqId);
    PublishFrame(s, t, tx, b, outcome, dlqId);
    PublishLog(s, t, tx, outcome, dlqId, row);
    AttemptWrites(t, tx, b, row, event, outcome.Acknowledged?, dlqId);
    assert t.open[tx] == AfterAttempt(b, row, event, outcome.Acknowledged?, dlqId);
  }

  lemma {:induction false} PublishOpen(s: State, t: State, tx: TxId, outcome: Attempt, dlqId: Uuid)
    requires OpenWf(s) && TablesWf(s)
    requires Enabled(s, Publish(tx, outcome, dlqId)) && t == Apply(s, Publish(tx, outcome, dlqId))
    ensures OpenWf(t)
  {
    var b := s.open[tx];
    assert BatchShape(b) && BatchHolds(s, tx, b) && BatchWrites(s, tx, b);
    PublishOwn(s, t, tx, b, outcome, dlqId);
    forall x | x in t.open
      ensures TxWf(t, x, t.open[x])
    {
      assert TxWf(s, x, s.open[x]);
      if x != tx && s.open[x].Batch? {
        PublishOthers(s, t, tx, outcome, dlqId, x);
      }
    }
  }

  lemma {:induction false} PublishTables(s: State, t: State, tx: TxId, outcome: Attempt, dlqId: Uuid)
    requires TablesWf(s)
    requires Enabled(s, Publish(tx, outcome, dlqId)) && t == Apply(s, Publish(tx, outcome, dlqId))
    ensures TablesWf(t)
  {
  }

  lemma {:induction false} PublishLocks(s: State, t: State, tx: TxId, outcome: Attempt, dlqId: Uuid)
    requires LocksWf(s) && tx in s.started
    requires Enabled(s, Publish(tx, outcome, dlqId)) && t == Apply(s, Publish(tx, outcome, dlqId))
    ensures LocksWf(t)
  {
  }

  lemma {:induction false} PublishLogWf(s: State, t: State, tx: TxId, outcome: Attempt, dlqId: Uuid)
    requires LogWf(s)
    requires Enabled(s, Publish(tx, outcome, dlqId)) && t == Apply(s, Publish(tx, outcome, dlqId))
    ensures LogWf(t)
  {
  }

  lemma {:induction false} PublishElsewhere(s: State, t: State, tx: TxId, outcome: Attempt, dlqId: Uuid, id: Uuid)
    requires Enabled(s, Publish(tx, outcome, dlqId)) && t == Apply(s, Publish(tx, outcome, dlqId))
    requires id in s.rows && id != s.open[tx].claimed[s.open[tx].pos] && RowBounded(s, id)
    ensures RowBounded(t, id)
  {
    PublishLog(s, t, tx, outcome, dlqId, id);
    PublishInFlight(s, t, tx, outcome, dlqId, id);
  }

  lemma {:induction false} PublishInFlight(s: State, t: State, tx: TxId, outcome: Attempt, dlqId: Uuid, id: Uuid)
    requires Enabled(s, Publish(tx, outcome, dlqId)) && t == Apply(s, Publish(tx, outcome, dlqId))
    requires id != s.open[tx].claimed[s.open[tx].pos]
    ensures InFlight(t, id) == InFlight(s, id)
  {
    assert t.locks == s.locks;
    if id in s.locks && s.locks[id] == tx {
      assert id in t.open[tx].marked <==> id in s.open[tx].marked;
    }
  }

  lemma {:induction false} PublishRow(s: State, t: State, tx: TxId, outcome: Attempt, dlqId: Uuid, row: Uuid)
    requires Enabled(s, Publish(tx, outcome, dlqId)) && t == Apply(s, Publish(tx, outcome, dlqId))
    requires row == s.open[tx].claimed[s.open[tx].pos] && !s.rows[row].published && RowBounded(s, row)
    requires row in s.locks && s.locks[row] == tx && row !in s.open[tx].marked
    ensures RowBounded(t, row)
  {
    PublishLog(s, t, tx, outcome, dlqId, row);
    assert !InFlight(s, row);
    assert outcome.Acknowledged? ==> InFlight(t, row);
  }

  lemma {:induction false} PublishDuplicates(s: State, t: State, tx: TxId, outcome: Attempt, dlqId: Uuid)
    requires OpenWf(s) && DuplicatesBounded(s)
    requires Enabled(s, Publish(tx, outcome, dlqId)) && t == Apply(s, Publish(tx, outcome, dlqId))
    ensures DuplicatesBounded(t)
  {
    CurrentRow(s, tx);
    forall id | id in t.rows
      ensures RowBounded(t, id)
    {
      if id == s.open[tx].claimed[s.open[tx].pos] {
        PublishRow(s, t, tx, outcome, dlqId, id);
      } else {
        PublishElsewhere(s, t, tx, outcome, dlqId, id);
      }
    }
  }

  lemma {:induction false} PublishKeeps(s: State, tx: TxId, outcome: Attempt, dlqId: Uuid)
    requires Inv(s) && Enabled(s, Publish(tx, outcome, dlqId))
    ensures Inv(Apply(s, Publish(tx, outcome, dlqId)))
  {
    var t := Apply(s, Publish(tx, outcome, dlqId));
    PublishOpen(s, t, tx, outcome, dlqId);
    PublishTables(s, t, tx, outcome, dlqId);
    PublishLocks(s, t, tx, outcome, dlqId);
    PublishLogWf(s, t, tx, outcome, dlqId);
    PublishDuplicates(s, t, tx, outcome, dlqId);
    forall id | id in s.rows
      ensures Deliveries(s.log, id) <= Deliveries(t.log, id)
    {
      PublishLog(s, t, tx, outcome, dlqId, id);
    }
    SameTablesKeepAlive(s, t);
  }

  // PassOver and LockDlq

  lemma {:induction false} PassOverOpen(s: State, t: State, tx: TxId)
    requires OpenWf(s) && Enabled(s, PassOver(tx)) && t == Apply(s, PassOver(tx))
    ensures OpenWf(t)
  {
  }

  /** Steps that only change batches' positions, or open and close replays. */
  lemma {:induction false} SameBatchesKeepBounds(s: State, t: State)
    requires LocksWf(s) && DuplicatesBounded(s)
    requires t.rows == s.rows && t.log == s.log && t.locks == s.locks && t.minted == s.minted && s.started <= t.started
    requires t.aborted == s.aborted && t.unsure == s.unsure
    requires forall x <- s.open | s.open[x].Batch? ::
               && x in t.open && t.open[x].Batch?
               && t.open[x].claimed == s.open[x].claimed && t.open[x].marked == s.open[x].marked
    ensures LocksWf(t) && DuplicatesBounded(t)
  {
  }

  lemma {:induction false} PassOverBounds(s: State, t: State, tx: TxId)
    requires LocksWf(s) && DuplicatesBounded(s) && Enabled(s, PassOver(tx)) && t == Apply(s, PassOver(tx))
    ensures LocksWf(t) && DuplicatesBounded(t)
  {
  }

  lemma {:induction false} PassOverKeeps(s: State, tx: TxId)
    requires Inv(s) && Enabled(s, PassOver(tx))
    ensures Inv(Apply(s, PassOver(tx)))
  {
    var t := Apply(s, PassOver(tx));
    PassOverOpen(s, t, tx);
    PassOverBounds(s, t, tx);
    SameTablesWf(s, t);
    SameTablesKeepAlive(s, t);
  }

  lemma {:induction false} LockDlqOpen(s: State, t: State, tx: TxId, dlqId: Uuid, newId: Uuid, at: Time)
    requires OpenWf(s)
    requires Enabled(s, LockDlq(tx, dlqId, newId, at)) && t == Apply(s, LockDlq(tx, dlqId, newId, at))
    ensures OpenWf(t)
  {
  }

  lemma {:induction false} LockDlqBounds(s: State, t: State, tx: TxId, dlqId: Uuid, newId: Uuid, at: Time)
    requires OpenWf(s) && LocksWf(s) && DuplicatesBounded(s)
    requires Enabled(s, LockDlq(tx, dlqId, newId, at)) && t == Apply(s, LockDlq(tx, dlqId, newId, at))
    ensures LocksWf(t) && DuplicatesBounded(t)
  {
    assert forall x <- s.open :: x in s.started;
    SameBatchesKeepBounds(s, t);
  }

  lemma {:induction false} LockDlqKeeps(s: State, tx: TxId, dlqId: Uuid, newId: Uuid, at: Time)
    requires Inv(s) && Enabled(s, LockDlq(tx, dlqId, newId, at))
    ensures Inv(Apply(s, LockDlq(tx, dlqId, newId, at)))
  {
    var t := Apply(s, LockDlq(tx, dlqId, newId, at));
    LockDlqOpen(s, t, tx, dlqId, newId, at);
    LockDlqBounds(s, t, tx, dlqId, newId, at);
    SameTablesWf(s, t);
    SameTablesKeepAlive(s, t);
  }

  // Commit of a batch

  predicate BatchReady(s: State, tx: TxId) {
    tx in s.open && s.open[tx].Batch? && s.open[tx].pos == |s.open[tx].claimed|
  }

  /** The finished batch that is about to commit. */
  ghost predicate Committing(s: State, t: State, tx: TxId, b: Tx) {
    && tx in s.open && s.open[tx] == b && b.Batch? && t == CommitBatch(s, tx)
    && BatchHolds(s, tx, b) && BatchWrites(s, tx, b)
  }

  lemma {:induction false} CommitBatchOthers(s: State, t: State, tx: TxId, b: Tx, x: TxId, other: Tx)
    requires Committing(s, t, tx, b) && x != tx
    requires other.Batch? && BatchHolds(s, x, other) && BatchWrites(s, x, other)
    ensures BatchHolds(t, x, other) && BatchWrites(t, x, other)
  {
    forall id | id in other.claimed
      ensures id !in b.claimed && id !in b.marked
    {
      assert s.locks[id] == x;
    }
    assert forall d <- other.dead :: s.minted[d] == x && d !in b.dead;
    BatchFrame(s, t, x, other);
  }

  lemma {:induction false} CommitBatchOpen(s: State, t: State, tx: TxId, b: Tx)
    requires OpenWf(s) && Committing(s, t, tx, b)
    ensures OpenWf(t)
  {
    forall x | x in t.open && t.open[x].Batch?
      ensures BatchShape(t.open[x]) && BatchHolds(t, x, t.open[x]) && BatchWrites(t, x, t.open[x])
    {
      CommitBatchOthers(s, t, tx, b, x, s.open[x]);
    }
    forall x | x in t.open && t.open[x].Replay?
      ensures ReplayHolds(t, x, t.open[x])
    {
      assert ReplayHolds(s, x, s.open[x]);
      assert s.open[x].dlqId !in b.dead;
    }
  }

  lemma {:induction false} CommitBatchPublished(s: State, t: State, tx: TxId, b: Tx)
    requires PublishedWf(s) && Committing(s, t, tx, b)
    ensures PublishedWf(t)
  {
    forall id | id in t.rows && t.rows[id].published
      ensures Deliveries(t.log, id) > 0 || DeadLettered(t.dlq, id)
    {
      if Deliveries(s.log, id) == 0 {
        assert DeadLettered(s.dlq, id) || DeadLettered(b.dead, id);
        CommitDlqGrows(s.dlq, b.dead, id);
      }
    }
  }

  lemma {:induction false} CommitDlqGrows(dlq: map<Uuid, DlqRow>, dead: map<Uuid, DlqRow>, id: Uuid)
    requires dlq.Keys !! dead.Keys && (DeadLettered(dlq, id) || DeadLettered(dead, id))
    ensures DeadLettered(dlq + dead, id)
  {
    if DeadLettered(dlq, id) {
      var d :| d in dlq && dlq[d].outboxId == id;
      assert (dlq + dead)[d] == dlq[d];
    } else {
      var d :| d in dead && dead[d].outboxId == id;
      assert (dlq + dead)[d] == dead[d];
    }
  }

  lemma {:induction false} CommitBatchDlq(s: State, t: State, tx: TxId, b: Tx)
    requires DlqWf(s) && Committing(s, t, tx, b)
    ensures DlqWf(t)
  {
    forall d | d in t.dlq
      ensures DlqRowWf(t, d)
    {
      if d in b.dead {
        assert d !in s.dlq && d !in s.replays;
      } else {
        assert DlqRowWf(s, d);
      }
    }
  }

  lemma {:induction false} CommitBatchLocks(s: State, t: State, tx: TxId, b: Tx)
    requires LocksWf(s) && Committing(s, t, tx, b)
    ensures LocksWf(t)
  {
  }

  lemma {:induction false} CommitBatchLog(s: State, t: State, tx: TxId, b: Tx)
    requires LogWf(s) && Committing(s, t, tx, b)
    ensures LogWf(t)
  {
  }

  lemma {:induction false} CommitBatchInFlight(s: State, t: State, tx: TxId, b: Tx, id: Uuid)
    requires Committing(s, t, tx, b) && id in s.rows && (s.rows[id].published || InFlight(s, id))
    ensures t.rows[id].published || InFlight(t, id)
  {
    if id !in b.marked && InFlight(s, id) {
      assert s.locks[id] != tx;
      assert id !in b.claimed;
    }
  }

  lemma {:induction false} CommitBatchDuplicates(s: State, t: State, tx: TxId, b: Tx)
    requires DuplicatesBounded(s) && Committing(s, t, tx, b)
    ensures DuplicatesBounded(t)
  {
    forall id | id in t.rows
      ensures RowBounded(t, id)
    {
      assert RowBounded(s, id);
      if s.rows[id].published || InFlight(s, id) {
        CommitBatchInFlight(s, t, tx, b, id);
      }
    }
  }

  lemma {:induction false} CommitBatchLive(s: State, t: State, tx: TxId, b: Tx, id: Uuid)
    requires Committing(s, t, tx, b) && id in s.rows && Live(s, id)
    ensures Live(t, id)
  {
    if d :| d in s.dlq && s.dlq[d].outboxId == id && !s.dlq[d].replayed {
      assert t.dlq[d] == s.dlq[d];
    } else if id in b.marked && Deliveries(s.log, id) == 0 {
      var d :| d in b.dead && b.dead[d].outboxId == id;
      assert t.dlq[d] == b.dead[d];
    }
  }

  lemma {:induction false} CommitBatchOrigin(s: State, t: State, tx: TxId, b: Tx)
    requires OriginWf(s) && Committing(s, t, tx, b)
    ensures OriginWf(t)
  {
  }

  lemma {:induction false} CommitBatchAlive(s: State, t: State, tx: TxId, b: Tx)
    requires OriginWf(s) && NothingLost(s) && Committing(s, t, tx, b)
    ensures OriginWf(t) && NothingLost(t)
  {
    CommitBatchOrigin(s, t, tx, b);
    forall id | id in s.rows && Live(s, id)
      ensures Live(t, id)
    {
      CommitBatchLive(s, t, tx, b, id);
    }
    forall root | root in t.rows && t.origin[root] == root
      ensures KeptAlive(t, root)
    {
      assert KeptAlive(s, root);
      LiveFrame(s, t, root);
    }
  }

  lemma {:induction false} CommitBatchKeeps(s: State, tx: TxId)
    requires Inv(s) && BatchReady(s, tx)
    ensures Inv(CommitBatch(s, tx))
  {
    var t, b := CommitBatch(s, tx), s.open[tx];
    assert Committing(s, t, tx, b);
    CommitBatchOpen(s, t, tx, b);
    CommitBatchLocks(s, t, tx, b);
    CommitBatchLog(s, t, tx, b);
    CommitBatchPublished(s, t, tx, b);
    CommitBatchDlq(s, t, tx, b);
    CommitBatchDuplicates(s, t, tx, b);
    CommitBatchAlive(s, t, tx, b);
  }

  // Commit of a replay

  predicate ReplayReady(s: State, tx: TxId) {
    tx in s.open && s.open[tx].Replay? && Enabled(s, Commit(tx))
  }

  lemma {:induction false} CommitReplayOpen(s: State, t: State, tx: TxId)
    requires OpenWf(s) && ReplayReady(s, tx) && t == CommitReplay(s, tx)
    ensures OpenWf(t)
  {
  }

  lemma {:induction false} CommitReplayPublished(s: State, t: State, tx: TxId)
    requires PublishedWf(s) && ReplayReady(s, tx) && t == CommitReplay(s, tx)
    ensures PublishedWf(t)
  {
    forall id | id in t.rows && t.rows[id].published
      ensures Deliveries(t.log, id) > 0 || DeadLettered(t.dlq, id)
    {
      if Deliveries(t.log, id) == 0 {
        var d :| d in s.dlq && s.dlq[d].outboxId == id;
        assert d in t.dlq && t.dlq[d].outboxId == id;
      }
    }
  }

  lemma {:induction false} CommitReplayDlq(s: State, t: State, tx: TxId)
    requires DlqWf(s) && ReplayReady(s, tx) && ReplayHolds(s, tx, s.open[tx]) && t == CommitReplay(s, tx)
    ensures DlqWf(t)
  {
  }

  lemma {:induction false} CommitReplayLocks(s: State, t: State, tx: TxId)
    requires LocksWf(s) && LogWf(s) && ReplayReady(s, tx) && t == CommitReplay(s, tx)
    ensures LocksWf(t) && LogWf(t)
  {
  }

  lemma {:induction false} CommitReplayDuplicates(s: State, t: State, tx: TxId)
    requires LogWf(s) && DuplicatesBounded(s) && ReplayReady(s, tx) && t == CommitReplay(s, tx)
    ensures DuplicatesBounded(t)
  {
    NoDeliveries(s.log, s.open[tx].newId);
    assert forall id <- s.rows :: InFlight(t, id) == InFlight(s, id);
  }

  lemma {:induction false} CommitReplayOrigin(s: State, t: State, tx: TxId)
    requires TablesWf(s) && OriginWf(s) && ReplayReady(s, tx) && t == CommitReplay(s, tx)
    ensures OriginWf(t)
  {
    var Replay(dlqId, newId, at) := s.open[tx];
    var d := s.dlq[dlqId];
    OriginExtends(s.rows, s.origin, newId, Row(d.event, at, false), s.origin[d.outboxId]);
  }

  lemma {:induction false} CommitReplayAlive(s: State, t: State, tx: TxId, root: Uuid)
    requires OriginWf(s) && OriginWf(t) && ReplayReady(s, tx) && t == CommitReplay(s, tx)
    requires KeptAlive(s, root)
    ensures KeptAlive(t, root)
  {
    var Replay(dlqId, newId, at) := s.open[tx];
    var w :| w in s.rows && s.origin[w] == root && Live(s, w);
    if Live(t, w) {
      assert w in t.rows && t.origin[w] == root;
    } else {
      // w was kept alive by the DLQ row now being replayed; its new row takes over.
      var d :| d in s.dlq && s.dlq[d].outboxId == w && !s.dlq[d].replayed;
      assert d in t.dlq && t.dlq[d].outboxId == w;
      assert d == dlqId;
      assert newId in t.rows && t.origin[newId] == root && Live(t, newId);
    }
  }

  lemma {:induction false} CommitReplayNothingLost(s: State, t: State, tx: TxId)
    requires OriginWf(s) && OriginWf(t) && NothingLost(s) && ReplayReady(s, tx) && t == CommitReplay(s, tx)
    ensures NothingLost(t)
  {
    forall root | root in t.rows && t.origin[root] == root
      ensures KeptAlive(t, root)
    {
      assert root in s.rows && s.origin[root] == root;
      CommitReplayAlive(s, t, tx, root);
    }
  }

  lemma {:induction false} CommitReplayKeeps(s: State, tx: TxId)
    requires Inv(s) && ReplayReady(s, tx)
    ensures Inv(CommitReplay(s, tx))
  {
    var t := CommitReplay(s, tx);
    CommitReplayOpen(s, t, tx);
    CommitReplayPublished(s, t, tx);
    assert ReplayHolds(s, tx, s.open[tx]);
    CommitReplayDlq(s, t, tx);
    CommitReplayLocks(s, t, tx);
    CommitReplayDuplicates(s, t, tx);
    CommitReplayOrigin(s, t, tx);
    CommitReplayNothingLost(s, t, tx);
  }

  // Abort

  lemma {:induction false} AbortBatchOpen(s: State, t: State, tx: TxId)
    requires OpenWf(s) && tx in s.open && s.open[tx].Batch? && t == Apply(s, Abort(tx))
    ensures OpenWf(t)
  {
  }

  lemma {:induction false} AbortReplayOpen(s: State, t: State, tx: TxId)
    requires OpenWf(s) && tx in s.open && s.open[tx].Replay? && t == Apply(s, Abort(tx))
    ensures OpenWf(t)
  {
  }

  lemma {:induction false} AbortBatchLocks(s: State, t: State, tx: TxId)
    requires LocksWf(s) && tx in s.open && s.open[tx].Batch? && BatchHolds(s, tx, s.open[tx])
    requires t == Apply(s, Abort(tx))
    ensures LocksWf(t)
  {
  }

  lemma {:induction false} AbortBatchDuplicates(s: State, t: State, tx: TxId)
    requires DuplicatesBounded(s) && tx in s.open && s.open[tx].Batch?
    requires BatchHolds(s, tx, s.open[tx]) && BatchWrites(s, tx, s.open[tx]) && t == Apply(s, Abort(tx))
    ensures DuplicatesBounded(t)
  {
  }

  lemma {:induction false} AbortReplayBounds(s: State, t: State, tx: TxId)
    requires LocksWf(s) && DuplicatesBounded(s) && tx in s.open && s.open[tx].Replay? && t == Apply(s, Abort(tx))
    ensures LocksWf(t) && DuplicatesBounded(t)
  {
  }

  lemma {:induction false} AbortKeeps(s: State, tx: TxId)
    requires Inv(s) && Enabled(s, Abort(tx))
    ensures Inv(Apply(s, Abort(tx)))
  {
    var t := Apply(s, Abort(tx));
    if s.open[tx].Batch? {
      AbortBatchOpen(s, t, tx);
      AbortBatchLocks(s, t, tx);
      AbortBatchDuplicates(s, t, tx);
    } else {
      AbortReplayOpen(s, t, tx);
      AbortReplayBounds(s, t, tx);
    }
    SameTablesWf(s, t);
    SameTablesKeepAlive(s, t);
  }

  // All steps, all runs

  lemma {:induction false} StepKeeps(s: State, step: Step)
    requires Inv(s) && Enabled(s, step)
    ensures Inv(Apply(s, step))
  {
    match step
    case Insert(id, event, at) => InsertKeeps(s, id, event, at);
    case Claim(tx, batch, limit, maxAttempts) => ClaimKeeps(s, tx, batch, limit, maxAttempts);
    case Publish(tx, outcome, dlqId) => PublishKeeps(s, tx, outcome, dlqId);
    case PassOver(tx) => PassOverKeeps(s, tx);
    case LockDlq(tx, dlqId, newId, at) => LockDlqKeeps(s, tx, dlqId, newId, at);
    case Commit(tx) => if s.open[tx].Batch? { CommitBatchKeeps(s, tx); } else { CommitReplayKeeps(s, tx); }
    case Abort(tx) => AbortKeeps(s, tx);
  }

  lemma {:induction false} RunKeeps(s: State, steps: seq<Step>)
    requires Inv(s) && Legal(s, steps)
    ensures Inv(Exec(s, steps))
    decreases |steps|
  {
    if steps != [] {
      StepKeeps(s, steps[0]);
      RunKeeps(Apply(s, steps[0]), steps[1..]);
    }
  }
}
