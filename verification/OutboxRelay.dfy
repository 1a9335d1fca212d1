/** The relay of `crates/outbox/src/relay.rs` as imperative code over its tables, proved to
    be a run of the protocol, from any reachable state: other relays may hold rows and leave
    their transactions open. The publisher is an arbitrary function from the number of the call
    to what the call did. */
module OutboxRelay {
  import opened Common
  import opened OutboxAnswers
  import opened OutboxProtocol
  import opened OutboxGuarantees

  datatype RelayError = DlqRowNotFound(dlqId: Uuid) | AlreadyReplayed(dlqId: Uuid) | Database

  lemma {:induction false} ExecAppend(s: State, steps: seq<Step>, step: Step)
    requires Legal(s, steps) && Enabled(Exec(s, steps), step)
    ensures Legal(s, steps + [step]) && Exec(s, steps + [step]) == Apply(Exec(s, steps), step)
    decreases |steps|
  {
    if steps == [] {
      assert steps + [step] == [step];
      assert Legal(Apply(s, step), [step][1..]);
    } else {
      ExecAppend(Apply(s, steps[0]), steps[1..], step);
      assert (steps + [step])[1..] == steps[1..] + [step];
    }
  }

  // Claiming

  function Members(ids: seq<Uuid>): set<Uuid> {
    set id | id in ids
  }

  lemma {:induction false} OldestExists(rows: map<Uuid, Row>, pool: set<Uuid>)
    requires pool != {} && pool <= rows.Keys
    ensures exists id :: id in pool && forall x <- pool :: rows[id].createdAt <= rows[x].createdAt
  {
    var a :| a in pool;
    if pool != {a} {
      OldestExists(rows, pool - {a});
      var b :| b in pool - {a} && forall x <- pool - {a} :: rows[b].createdAt <= rows[x].createdAt;
      var least := if rows[a].createdAt <= rows[b].createdAt then a else b;
      assert forall x <- pool :: x == a || x in pool - {a};
      assert least in pool && forall x <- pool :: rows[least].createdAt <= rows[x].createdAt;
    }
  }

  /** `batch` in order of age, and no older than anything in `rest`. */
  ghost predicate OldestFirst(rows: map<Uuid, Row>, batch: seq<Uuid>, rest: set<Uuid>)
    requires rest <= rows.Keys && forall i :: 0 <= i < |batch| ==> batch[i] in rows
  {
    && (forall i, j :: 0 <= i < j < |batch| ==>
          batch[i] != batch[j] && rows[batch[i]].createdAt <= rows[batch[j]].createdAt)
    && (forall i, x | 0 <= i < |batch| && x in rest :: rows[batch[i]].createdAt <= rows[x].createdAt)
  }

  /** `batch` was taken from `all` oldest first, leaving `pool`. */
  ghost predicate Selecting(rows: map<Uuid, Row>, all: set<Uuid>, batch: seq<Uuid>, pool: set<Uuid>) {
    && all <= rows.Keys && pool == all - Members(batch) && |batch| + |pool| == |all|
    && (forall i :: 0 <= i < |batch| ==> batch[i] in all)
    && OldestFirst(rows, batch, pool)
  }

  lemma {:induction false} SelectNext(rows: map<Uuid, Row>, all: set<Uuid>, batch: seq<Uuid>, pool: set<Uuid>, id: Uuid)
    requires Selecting(rows, all, batch, pool)
    requires id in pool && forall x <- pool :: rows[id].createdAt <= rows[x].createdAt
    ensures Selecting(rows, all, batch + [id], pool - {id})
  {
  }

  /** Unpublished rows that nobody has locked. */
  function Available(rows: map<Uuid, Row>, locked: set<Uuid>): set<Uuid> {
    Unpublished(rows) - locked
  }

  function Min(a: nat, b: nat): nat {
    if a < b then a else b
  }

  /** The query of `claim_unpublished`: locked rows are skipped. */
  method SelectOldest(rows: map<Uuid, Row>, locked: set<Uuid>, limit: nat) returns (batch: seq<Uuid>)
    ensures forall i :: 0 <= i < |batch| ==> batch[i] in Available(rows, locked)
    ensures OldestFirst(rows, batch, Available(rows, locked) - Members(batch))
    ensures |batch| == Min(|Available(rows, locked)|, limit)
  {
    batch := [];
    var all := Available(rows, locked);
    var pool := all;
    while |batch| < limit && pool != {}
      invariant |batch| <= limit && Selecting(rows, all, batch, pool)
      decreases pool
    {
      OldestExists(rows, pool);
      var id :| id in pool && forall x <- pool :: rows[id].createdAt <= rows[x].createdAt;
      SelectNext(rows, all, batch, pool, id);
      batch := batch + [id];
      pool := pool - {id};
    }
  }

  lemma {:induction false} SelectionIsClaim(s: State, batch: seq<Uuid>, limit: nat)
    requires var all := Available(s.rows, s.locks.Keys);
             && (forall i :: 0 <= i < |batch| ==> batch[i] in all)
             && OldestFirst(s.rows, batch, all - Members(batch))
             && |batch| == Min(|all|, limit)
    ensures ClaimedBatch(s, batch, limit)
  {
    var all := Available(s.rows, s.locks.Keys);
    forall id | id in s.rows && Claimable(s, id) && id !in batch
      ensures |batch| == limit && forall c <- batch :: s.rows[c].createdAt <= s.rows[id].createdAt
    {
      assert id in all - Members(batch);
      DistinctSize(batch, all, id);
    }
  }

  /** A claimed batch is the oldest available rows, oldest first. */
  lemma {:induction false} ClaimTakesOldest(s: State, batch: seq<Uuid>, limit: nat)
    requires ClaimedBatch(s, batch, limit)
    ensures forall i :: 0 <= i < |batch| ==> batch[i] in Available(s.rows, s.locks.Keys)
    ensures OldestFirst(s.rows, batch, Available(s.rows, s.locks.Keys) - Members(batch))
    ensures |batch| == limit || forall id <- Available(s.rows, s.locks.Keys) :: id in batch
  {
    forall i, x | 0 <= i < |batch| && x in Available(s.rows, s.locks.Keys) - Members(batch)
      ensures s.rows[batch[i]].createdAt <= s.rows[x].createdAt
    {
      assert Claimable(s, x) && batch[i] in batch;
    }
  }

  /** Distinct members of a set that misses one of them are fewer than the set. */
  lemma {:induction false} DistinctSize(batch: seq<Uuid>, all: set<Uuid>, missing: Uuid)
    requires forall i :: 0 <= i < |batch| ==> batch[i] in all
    requires forall i, j :: 0 <= i < j < |batch| ==> batch[i] != batch[j]
    requires missing in all && missing !in batch
    ensures |batch| < |all|
  {
    if batch == [] {
      assert |all - {missing}| == |all| - 1;
    } else {
      var n := |batch| - 1;
      DistinctSize(batch[..n], all - {batch[n]}, missing);
      assert |all - {batch[n]}| == |all| - 1;
    }
  }

  /** The batch `tx` is about to publish `row`. */
  ghost predicate AtRow(s: State, tx: TxId, row: Uuid, maxAttempts: nat) {
    && tx in s.open && s.open[tx].Batch? && s.open[tx].maxAttempts == maxAttempts && s.open[tx].attempts == 0
    && s.open[tx].pos < |s.open[tx].claimed| && s.open[tx].claimed[s.open[tx].pos] == row && row in s.rows
  }

  /** The batch after its row was published, dead-lettered, or (no attempts allowed) neither. */
  ghost function Attempted(s: State, tx: TxId, row: Uuid, ok: bool, failed: bool, dlqId: Uuid): Tx
    requires tx in s.open && s.open[tx].Batch? && row in s.rows
  {
    var b := s.open[tx];
    if ok then b.(pos := b.pos + 1, marked := b.marked + {row})
    else if failed then
      b.(pos := b.pos + 1, marked := b.marked + {row}, dead := b.dead[dlqId := DlqRow(row, s.rows[row].event, false)])
    else b
  }

  /** From s to t, batch `tx` tried to publish `row`; only it, the log and the history changed. */
  ghost predicate AfterRow(s: State, t: State, tx: TxId, row: Uuid, ok: bool, failed: bool, dlqId: Uuid)
    requires tx in s.open && s.open[tx].Batch? && row in s.rows
  {
    t == s.(open := s.open[tx := Attempted(s, tx, row, ok, failed, dlqId)], log := t.log, unsure := t.unsure,
            minted := if failed then s.minted[dlqId := tx] else s.minted)
  }

  /** The same after `attempt - 1` attempts. */
  ghost predicate Midway(s: State, t: State, tx: TxId, row: Uuid, ok: bool, attempt: nat, dlqId: Uuid)
    requires tx in s.open && s.open[tx].Batch? && row in s.rows && attempt > 0
  {
    var b := s.open[tx];
    var failed := !ok && attempt > b.maxAttempts > 0;
    var now := if ok || failed then Attempted(s, tx, row, ok, failed, dlqId) else b.(attempts := attempt - 1);
    t == s.(open := s.open[tx := now], log := t.log, unsure := t.unsure,
            minted := if failed then s.minted[dlqId := tx] else s.minted)
  }

  lemma {:induction false} MidwayStart(s: State, tx: TxId, row: Uuid, maxAttempts: nat, dlqId: Uuid)
    requires AtRow(s, tx, row, maxAttempts)
    ensures Midway(s, s, tx, row, false, 1, dlqId)
  {
  }

  lemma {:induction false} MidwayEnabled(s: State, t: State, tx: TxId, row: Uuid, attempt: nat, dlqId: Uuid)
    requires tx in s.open && s.open[tx].Batch? && AtRow(s, tx, row, s.open[tx].maxAttempts)
    requires 0 < attempt <= s.open[tx].maxAttempts
    requires Midway(s, t, tx, row, false, attempt, dlqId) && dlqId !in s.minted
    ensures dlqId !in t.minted && row in t.rows && tx in t.open && t.open[tx].Batch?
    ensures forall outcome :: Enabled(t, Publish(tx, outcome, dlqId))
    ensures t.open[tx].claimed[t.open[tx].pos] == row
  {
  }

  lemma {:induction false} MidwayStep(s: State, t: State, tx: TxId, row: Uuid, attempt: nat, outcome: Attempt,
                                      dlqId: Uuid)
    requires tx in s.open && s.open[tx].Batch? && AtRow(s, tx, row, s.open[tx].maxAttempts)
    requires 0 < attempt <= s.open[tx].maxAttempts
    requires Midway(s, t, tx, row, false, attempt, dlqId) && Enabled(t, Publish(tx, outcome, dlqId))
    ensures Midway(s, Apply(t, Publish(tx, outcome, dlqId)), tx, row, outcome.Acknowledged?, attempt + 1, dlqId)
  {
  }

  /** From s to t, transaction `tx` was opened and locked the rows it claimed. */
  ghost predicate Opened(s: State, t: State, tx: TxId, claimed: seq<Uuid>, maxAttempts: nat) {
    && tx !in s.open && (forall id <- claimed :: id !in s.locks)
    && t.open == s.open[tx := Batch(claimed, maxAttempts, 0, 0, {}, map[])]
    && t.locks == s.locks + (map id | id in claimed :: tx)
    && t.rows == s.rows && t.dlq == s.dlq && t.dlqLocks == s.dlqLocks
  }

  /** Since s, transaction `tx` has come to `b`, with nothing committed; only the log and the
      history changed besides. */
  ghost predicate WithinBatch(s: State, t: State, tx: TxId, b: Tx) {
    t == s.(open := s.open[tx := b], log := t.log, minted := t.minted, unsure := t.unsure)
  }

  ghost predicate FreshIn(s: State, nextId: Uuid, nextTx: TxId) {
    && (forall id | id in s.minted || id in s.dlq || id in s.rows :: id < nextId)
    && (forall tx | tx in s.started || tx in s.open :: tx < nextTx)
  }

  /** The batch with its current row published or dead-lettered. */
  function RowDone(b: Tx, row: Uuid, ok: bool, dlqId: Uuid, event: Event): Tx
    requires b.Batch?
  {
    Batch(b.claimed, b.maxAttempts, b.pos + 1, 0, b.marked + {row},
          if ok then b.dead else b.dead[dlqId := DlqRow(row, event, false)])
  }

  lemma {:induction false} RowHandled(start: State, s: State, t: State, tx: TxId, b: Tx, row: Uuid, ok: bool,
                                      nextId: Uuid, nextTx: TxId)
    requires b.Batch? && b.attempts == 0 && WithinBatch(start, s, tx, b) && FreshIn(s, nextId, nextTx)
    requires row in s.rows && AfterRow(s, t, tx, row, ok, !ok, nextId)
    ensures WithinBatch(start, t, tx, RowDone(b, row, ok, nextId, s.rows[row].event))
    ensures FreshIn(t, if ok then nextId else nextId + 1, nextTx)
  {
  }

  lemma {:induction false} UnionSize(a: map<Uuid, DlqRow>, b: map<Uuid, DlqRow>)
    requires a.Keys !! b.Keys
    ensures |a + b| == |a| + |b|
  {
  }

  lemma {:induction false} BatchClaimed(s: State, tx: TxId, claimed: seq<Uuid>, limit: nat, maxAttempts: nat,
                                        nextId: Uuid)
    requires FreshIn(s, nextId, tx) && ClaimedBatch(s, claimed, limit)
    ensures Enabled(s, Claim(tx, claimed, limit, maxAttempts))
    ensures var t := Apply(s, Claim(tx, claimed, limit, maxAttempts));
            && Opened(s, t, tx, claimed, maxAttempts) && FreshIn(t, nextId, tx + 1)
            && t.log == s.log && t.locks.Keys == s.locks.Keys + Members(claimed)
  {
  }

  /** The claim, as the next step of the run. */
  lemma {:induction false} ClaimRuns(s: State, steps: seq<Step>, tx: TxId, claimed: seq<Uuid>, limit: nat,
                                     maxAttempts: nat,
                                     nextId: Uuid)
    returns (t: State)
    requires Legal(INIT, steps) && s == Exec(INIT, steps) && FreshIn(s, nextId, tx) && ClaimedBatch(s, claimed, limit)
    ensures var run := steps + [Claim(tx, claimed, limit, maxAttempts)]; Legal(INIT, run) && t == Exec(INIT, run)
    ensures Opened(s, t, tx, claimed, maxAttempts) && FreshIn(t, nextId, tx + 1)
    ensures t.rows == s.rows && t.dlq == s.dlq && t.log == s.log && t.locks.Keys == s.locks.Keys + Members(claimed)
    ensures AllIn(s.rows, claimed)
  {
    var step := Claim(tx, claimed, limit, maxAttempts);
    BatchClaimed(s, tx, claimed, limit, maxAttempts, nextId);
    ExecAppend(INIT, steps, step);
    t := Apply(s, step);
    assert forall i :: 0 <= i < |claimed| ==> Claimable(s, claimed[i]);
  }

  /** Without the batch's locks and its open transaction, everything is as before it was opened. */
  lemma {:induction false} LocksReleased(before: State, start: State, tx: TxId, claimed: seq<Uuid>, maxAttempts: nat)
    requires Opened(before, start, tx, claimed, maxAttempts)
    ensures start.locks.Keys - Members(claimed) == before.locks.Keys && start.open - {tx} == before.open
    ensures start.rows == before.rows && start.dlq == before.dlq
    ensures WithinBatch(start, start, tx, Batch(claimed, maxAttempts, 0, 0, {}, map[]))
  {
  }

  /** The commit of a finished batch, as the next step of the run. */
  lemma {:induction false} CommitRuns(start: State, s: State, steps: seq<Step>, tx: TxId, b: Tx, nextId: Uuid,
                                      nextTx: TxId)
    returns (t: State)
    requires Legal(INIT, steps) && s == Exec(INIT, steps) && FreshIn(s, nextId, nextTx)
    requires b.Batch? && WithinBatch(start, s, tx, b) && b.pos == |b.claimed|
    requires forall d <- b.dead :: d < nextId && d !in s.dlq
    ensures Legal(INIT, steps + [Commit(tx)]) && t == Exec(INIT, steps + [Commit(tx)])
    ensures t.locks.Keys == start.locks.Keys - Members(b.claimed) && t.open == start.open - {tx}
    ensures t.log == s.log && FreshIn(t, nextId, nextTx)
    ensures t.rows == MarkPublished(start.rows, b.marked) && t.dlq == start.dlq + b.dead
  {
    t := CommitBatch(s, tx);
    ExecAppend(INIT, steps, Commit(tx));
  }

  /** Passing over a row when no attempts are allowed. */
  lemma {:induction false} PassRuns(start: State, s: State, steps: seq<Step>, tx: TxId, b: Tx, nextId: Uuid,
                                    nextTx: TxId)
    returns (t: State)
    requires Legal(INIT, steps) && s == Exec(INIT, steps) && FreshIn(s, nextId, nextTx)
    requires b.Batch? && WithinBatch(start, s, tx, b) && b.maxAttempts == 0 && b.pos < |b.claimed|
    ensures Legal(INIT, steps + [PassOver(tx)]) && t == Exec(INIT, steps + [PassOver(tx)])
    ensures WithinBatch(start, t, tx, b.(pos := b.pos + 1)) && t.log == s.log && FreshIn(t, nextId, nextTx)
  {
    t := Apply(s, PassOver(tx));
    ExecAppend(INIT, steps, PassOver(tx));
  }

  /** The rollback of a batch at any point. */
  lemma {:induction false} AbortRuns(start: State, s: State, steps: seq<Step>, tx: TxId, b: Tx, nextId: Uuid,
                                     nextTx: TxId)
    returns (t: State)
    requires Legal(INIT, steps) && s == Exec(INIT, steps) && FreshIn(s, nextId, nextTx)
    requires b.Batch? && WithinBatch(start, s, tx, b)
    ensures Legal(INIT, steps + [Abort(tx)]) && t == Exec(INIT, steps + [Abort(tx)])
    ensures t.locks.Keys == start.locks.Keys - Members(b.claimed) && t.open == start.open - {tx}
    ensures t.log == s.log && FreshIn(t, nextId, nextTx) && t.rows == start.rows && t.dlq == start.dlq
  {
    t := Apply(s, Abort(tx));
    ExecAppend(INIT, steps, Abort(tx));
  }

  function FirstMembers(ids: seq<Uuid>, n: nat): set<Uuid>
    requires n <= |ids|
  {
    if n == 0 then {} else FirstMembers(ids, n - 1) + {ids[n - 1]}
  }

  lemma {:induction false} FirstMembersAre(ids: seq<Uuid>, n: nat)
    requires n <= |ids|
    ensures FirstMembers(ids, n) == Members(ids[..n])
  {
    if n > 0 {
      FirstMembersAre(ids, n - 1);
      assert ids[..n] == ids[..n - 1] + [ids[n - 1]];
    }
  }

  /** The loop's local variables after i rows. */
  ghost predicate Progress(claimed: seq<Uuid>, i: nat, maxAttempts: nat, n: nat, marked: set<Uuid>, dead: DlqInserts) {
    && i <= |claimed|
    && marked == (if maxAttempts == 0 then {} else FirstMembers(claimed, i))
    && n + |dead| == if maxAttempts == 0 then 0 else i
  }

  lemma {:induction false} ProgressStart(claimed: seq<Uuid>, maxAttempts: nat)
    ensures Progress(claimed, 0, maxAttempts, 0, {}, [])
  {
  }

  lemma {:induction false} ProgressDone(claimed: seq<Uuid>, maxAttempts: nat, n: nat, marked: set<Uuid>,
                                        dead: DlqInserts)
    requires Progress(claimed, |claimed|, maxAttempts, n, marked, dead)
    ensures marked == if maxAttempts == 0 then {} else Members(claimed)
    ensures n + |dead| == if maxAttempts == 0 then 0 else |claimed|
  {
    FirstMembersAre(claimed, |claimed|);
    assert claimed[..|claimed|] == claimed;
  }

  lemma {:induction false} ProgressPass(claimed: seq<Uuid>, i: nat, n: nat, marked: set<Uuid>, dead: DlqInserts)
    requires i < |claimed| && Progress(claimed, i, 0, n, marked, dead)
    ensures Progress(claimed, i + 1, 0, n, marked, dead)
  {
  }

  lemma {:induction false} ProgressStep(claimed: seq<Uuid>, i: nat, maxAttempts: nat, n: nat, marked: set<Uuid>,
                                        dead: DlqInserts, ok: bool, dead': DlqInserts)
    requires i < |claimed| && maxAttempts > 0 && Progress(claimed, i, maxAttempts, n, marked, dead)
    requires |dead'| == |dead| + if ok then 0 else 1
    ensures Progress(claimed, i + 1, maxAttempts, if ok then n + 1 else n, marked + {claimed[i]}, dead')
  {
  }

  /** DLQ rows that are not committed yet, in ascending order of their new ids. */
  ghost predicate NewRows(dead: DlqInserts, dlq: map<Uuid, DlqRow>, nextId: Uuid) {
    && (forall i :: 0 <= i < |dead| ==> dead[i].0 < nextId && dead[i].0 !in dlq)
    && (forall i, j :: 0 <= i < j < |dead| ==> dead[i].0 < dead[j].0)
  }

  lemma {:induction false} NewRow(dead: DlqInserts, dlq: map<Uuid, DlqRow>, nextId: Uuid, row: DlqRow)
    requires NewRows(dead, dlq, nextId) && nextId !in dlq
    ensures NewRows(dead + [(nextId, row)], dlq, nextId + 1)
    ensures Inserted(dead + [(nextId, row)]) == Inserted(dead)[nextId := row]
  {
    var more := dead + [(nextId, row)];
    assert more[..|more| - 1] == dead;
  }

  /** The local variables after a row, and the transaction's record of it, agree. */
  lemma {:induction false} RowRecorded(b: Tx, claimed: seq<Uuid>, i: nat, n: nat, dead: DlqInserts, id: Uuid, ok: bool,
                                       dlq: map<Uuid, DlqRow>, nextId: Uuid, row: DlqRow, dead': DlqInserts)
    requires b.Batch? && b.maxAttempts > 0 && i < |claimed| && id == claimed[i] && row == DlqRow(id, row.event, false)
    requires b == Batch(claimed, b.maxAttempts, i, 0, b.marked, Inserted(dead)) && nextId !in dlq
    requires Progress(claimed, i, b.maxAttempts, n, b.marked, dead) && NewRows(dead, dlq, nextId)
    requires dead' == if ok then dead else dead + [(nextId, row)]
    ensures Progress(claimed, i + 1, b.maxAttempts, if ok then n + 1 else n, b.marked + {id}, dead')
    ensures NewRows(dead', dlq, if ok then nextId else nextId + 1)
    ensures RowDone(b, id, ok, nextId, row.event)
         == Batch(claimed, b.maxAttempts, i + 1, 0, b.marked + {id}, Inserted(dead'))
  {
    ProgressStep(claimed, i, b.maxAttempts, n, b.marked, dead, ok, dead');
    if !ok {
      NewRow(dead, dlq, nextId, row);
    }
  }

  /** New rows are as many as their inserts, and replace nothing. */
  lemma {:induction false} NewRowsInserted(dead: DlqInserts, dlq: map<Uuid, DlqRow>, nextId: Uuid)
    requires NewRows(dead, dlq, nextId)
    ensures |Inserted(dead)| == |dead| && forall d <- Inserted(dead) :: d < nextId && d !in dlq
  {
    if dead != [] {
      var n := |dead| - 1;
      NewRowsInserted(dead[..n], dlq, dead[n].0);
      assert dead[n].0 !in Inserted(dead[..n]);
    }
  }

  /** What a committed batch leaves for the next one. */
  lemma {:induction false} LessAvailable(rows: map<Uuid, Row>, locked: set<Uuid>, batch: seq<Uuid>)
    requires forall i :: 0 <= i < |batch| ==> batch[i] in Available(rows, locked)
    requires forall i, j :: 0 <= i < j < |batch| ==> batch[i] != batch[j]
    ensures |Available(MarkPublished(rows, Members(batch)), locked)| == |Available(rows, locked)| - |batch|
  {
    PrefixSetSize(batch, |batch|);
    assert Members(batch) == (set i | 0 <= i < |batch| :: batch[i]);
    assert Available(MarkPublished(rows, Members(batch)), locked) == Available(rows, locked) - Members(batch);
  }

  /** What a committed batch does to the backlog. */
  lemma {:induction false} BatchLag(s: State, rows: map<Uuid, Row>, batch: seq<Uuid>, limit: nat)
    requires ClaimedBatch(s, batch, limit) && rows == MarkPublished(s.rows, Members(batch))
    ensures |Unpublished(rows)| == |Unpublished(s.rows)| - |batch|
  {
    ClaimIsAvailable(s, batch, limit);
    LessAvailable(s.rows, {}, batch);
    assert Available(s.rows, {}) == Unpublished(s.rows) && Available(rows, {}) == Unpublished(rows);
  }

  /** And to the backlog and the DLQ together. */
  lemma {:induction false} BatchOutcome(s: State, t: State, batch: seq<Uuid>, limit: nat, dead: DlqInserts, n: nat,
                                        nextId: Uuid)
    requires ClaimedBatch(s, batch, limit) && t.rows == MarkPublished(s.rows, Members(batch))
    requires t.dlq == s.dlq + Inserted(dead) && NewRows(dead, s.dlq, nextId) && n + |dead| == |batch|
    ensures Lag(t) == Lag(s) - |batch| && n + |t.dlq| == |s.dlq| + |batch|
  {
    NewRowsInserted(dead, s.dlq, nextId);
    UnionSize(s.dlq, Inserted(dead));
    BatchLag(s, t.rows, batch, limit);
  }

  lemma {:induction false} ClaimIsAvailable(s: State, batch: seq<Uuid>, limit: nat)
    requires ClaimedBatch(s, batch, limit)
    ensures forall i :: 0 <= i < |batch| ==> batch[i] in Available(s.rows, s.locks.Keys)
    ensures forall i, j :: 0 <= i < j < |batch| ==> batch[i] != batch[j]
  {
  }

  lemma {:induction false} ReplayCommitted(s: State, lock: Step, tx: TxId)
    requires lock.LockDlq? && lock.tx == tx && Enabled(s, lock) && FreshIn(s, lock.newId, tx)
    requires s.dlq[lock.dlqId].outboxId in s.origin
    ensures Enabled(Apply(s, lock), Commit(tx))
    ensures var t := Apply(Apply(s, lock), Commit(tx));
            && t.rows == s.rows[lock.newId := Row(s.dlq[lock.dlqId].event, lock.at, false)]
            && t.dlq == s.dlq[lock.dlqId := s.dlq[lock.dlqId].(replayed := true)]
            && t.log == s.log && t.open == s.open && t.locks == s.locks && t.dlqLocks == s.dlqLocks
            && FreshIn(t, lock.newId + 1, tx + 1)
  {
  }

  /** Locking, checking and committing a replay. */
  lemma {:induction false} ReplayRuns(s: State, steps: seq<Step>, tx: TxId, dlqId: Uuid, newId: Uuid, at: Time)
    requires Legal(INIT, steps) && s == Exec(INIT, steps) && dlqId !in s.dlqLocks
    requires FreshIn(s, newId, tx) && dlqId in s.dlq && !s.dlq[dlqId].replayed
    ensures var run := steps + [LockDlq(tx, dlqId, newId, at), Commit(tx)];
            && Legal(INIT, run)
            && var t := Exec(INIT, run);
            && t.rows == s.rows[newId := Row(s.dlq[dlqId].event, at, false)]
            && t.dlq == s.dlq[dlqId := s.dlq[dlqId].(replayed := true)]
            && t.log == s.log && t.open == s.open && t.locks == s.locks && t.dlqLocks == s.dlqLocks
            && FreshIn(t, newId + 1, tx + 1)
  {
    var lock := LockDlq(tx, dlqId, newId, at);
    assert s.dlq[dlqId].outboxId in s.origin by {
      Reachable(steps);
      assert DlqRowWf(s, dlqId);
    }
    ReplayCommitted(s, lock, tx);
    ExecAppend(INIT, steps, lock);
    ExecAppend(INIT, steps + [lock], Commit(tx));
    assert steps + [lock] + [Commit(tx)] == steps + [lock, Commit(tx)];
  }

  /** The fault occurs while a batch of what is left is worked on. */
  predicate Hits(fault: Option<nat>, left: nat, batchSize: nat) {
    fault.Some? && fault.value <= Min(left, batchSize)
  }

  /** Ticks that succeeded and failed, and rows left. */
  datatype Tally = Tally(done: nat, failed: nat, left: nat)

  /** A tick that fails leaves everything; one that succeeds takes a batch. */
  function TallyNext(faults: seq<Option<nat>>, batchSize: nat, tick: nat, was: Tally): Tally {
    if was.left == 0 then was
    else if tick < |faults| && Hits(faults[tick], was.left, batchSize) then was.(failed := was.failed + 1)
    else was.(done := was.done + 1, left := was.left - Min(was.left, batchSize))
  }

  function TallyAfter(faults: seq<Option<nat>>, batchSize: nat, all: nat, ticks: nat): Tally {
    if ticks == 0 then Tally(0, 0, all)
    else TallyNext(faults, batchSize, ticks - 1, TallyAfter(faults, batchSize, all, ticks - 1))
  }

  /** The tallies of a drain, tick by tick. */
  ghost predicate Trail(faults: seq<Option<nat>>, batchSize: nat, all: nat, trail: seq<Tally>) {
    && trail != [] && trail[0] == Tally(0, 0, all)
    && (forall i :: 0 <= i < |trail| - 1 ==> trail[i + 1] == TallyNext(faults, batchSize, i, trail[i]))
  }

  lemma {:induction false} TrailMore(faults: seq<Option<nat>>, batchSize: nat, all: nat, trail: seq<Tally>, now: Tally)
    requires Trail(faults, batchSize, all, trail)
    requires now == TallyNext(faults, batchSize, |trail| - 1, trail[|trail| - 1])
    ensures Trail(faults, batchSize, all, trail + [now])
  {
  }

  lemma {:induction false} TrailIs(faults: seq<Option<nat>>, batchSize: nat, all: nat, trail: seq<Tally>, i: nat)
    requires Trail(faults, batchSize, all, trail) && i < |trail|
    ensures trail[i] == TallyAfter(faults, batchSize, all, i)
  {
    if i > 0 {
      TrailIs(faults, batchSize, all, trail, i - 1);
      assert trail[i - 1 + 1] == TallyNext(faults, batchSize, i - 1, trail[i - 1]);
    }
  }

  /** No more ticks succeed than it takes to cover the rows, and no more fail than there are faults. */
  lemma {:induction false} TallyBounds(faults: seq<Option<nat>>, batchSize: nat, all: nat, ticks: nat)
    requires batchSize > 0
    ensures var t := TallyAfter(faults, batchSize, all, ticks);
            && t.failed <= |faults| && t.failed <= ticks
            && (if t.left > 0 then t.done * batchSize == all - t.left else t.done * batchSize < all + batchSize)
  {
    if ticks > 0 {
      TallyBounds(faults, batchSize, all, ticks - 1);
      TickCount(TallyAfter(faults, batchSize, all, ticks - 1).done, batchSize);
    }
  }

  class Relay {
    var rows: map<Uuid, Row>
    var dlq: map<Uuid, DlqRow>
    var broker: seq<Delivery>
    /** Rows that open transactions, of this relay or others, have locked. */
    var locked: set<Uuid>
    var calls: nat
    /** Ids from here on have never been used (`new_uuid_v7`). */
    var nextId: Uuid
    ghost var view: State
    ghost var history: seq<Step>
    ghost var nextTx: TxId

    /** The view is the protocol state after the history, and its committed part is in the fields. */
    ghost predicate Tracks()
      reads this
    {
      && Legal(INIT, history) && view == Exec(INIT, history)
      && (view.rows, view.dlq, view.log, view.locks.Keys) == (rows, dlq, broker, locked)
    }

    ghost predicate Fresh()
      reads this
    {
      FreshIn(view, nextId, nextTx)
    }

    ghost predicate Valid()
      reads this
    {
      Tracks() && Fresh()
    }

    /** A relay may start in any reachable state. */
    constructor Attach(rows: map<Uuid, Row>, dlq: map<Uuid, DlqRow>, broker: seq<Delivery>, locked: set<Uuid>,
                       nextId: Uuid, ghost steps: seq<Step>, ghost nextTx: TxId)
      requires Legal(INIT, steps) && FreshIn(Exec(INIT, steps), nextId, nextTx)
      requires var s := Exec(INIT, steps);
               s.rows == rows && s.dlq == dlq && s.log == broker && s.locks.Keys == locked
      ensures Valid() && view == Exec(INIT, steps) && history == steps
    {
      this.rows, this.dlq, this.broker, this.locked, this.calls, this.nextId := rows, dlq, broker, locked, 0, nextId;
      this.view, this.history, this.nextTx := Exec(INIT, steps), steps, nextTx;
    }

    /** `insert_event`, committed together with the domain write. */
    method InsertEvent(id: Uuid, event: Event, at: Time) returns (ok: bool)
      requires Valid()
      modifies this`rows, this`nextId, this`view, this`history
      ensures Valid()
      ensures ok <==> id !in old(rows)
      ensures history == old(history) + if ok then [Insert(id, event, at)] else []
    {
      ok := id !in rows;
      if ok {
        ExecAppend(INIT, history, Insert(id, event, at));
        rows := rows[id := Row(event, at, false)];
        view, history := Apply(view, Insert(id, event, at)), history + [Insert(id, event, at)];
        nextId := if id < nextId then nextId else id + 1;
      } else {
        assert history + [] == history;
      }
    }

    /** `replay_dlq_row`, from the point at which no other replay holds the row any more. */
    method ReplayDlqRow(dlqId: Uuid, at: Time) returns (r: Result<Uuid, RelayError>)
      requires Valid() && dlqId !in view.dlqLocks
      modifies this`rows, this`dlq, this`nextId, this`view, this`history, this`nextTx
      ensures Valid()
      ensures dlqId !in old(dlq) ==> r == Err(DlqRowNotFound(dlqId))
      ensures dlqId in old(dlq) && old(dlq)[dlqId].replayed ==> r == Err(AlreadyReplayed(dlqId))
      ensures r.Err? ==> history == old(history)
      ensures r.Ok? ==> history == old(history) + [LockDlq(old(nextTx), dlqId, r.value, at), Commit(old(nextTx))]
      ensures dlqId in old(dlq) && !old(dlq)[dlqId].replayed ==>
                r.Ok? && r.value !in old(rows) && rows == old(rows)[r.value := Row(old(dlq)[dlqId].event, at, false)]
    {
      if dlqId !in dlq {
        return Err(DlqRowNotFound(dlqId));
      }
      var row := dlq[dlqId];
      if row.replayed {
        return Err(AlreadyReplayed(dlqId));
      }
      var newId := nextId;
      ReplayRuns(view, history, nextTx, dlqId, newId, at);
      nextId := nextId + 1;
      rows := rows[newId := Row(row.event, at, false)];
      dlq := dlq[dlqId := row.(replayed := true)];
      history := history + [LockDlq(nextTx, dlqId, newId, at), Commit(nextTx)];
      view := Exec(INIT, history);
      nextTx := nextTx + 1;
      r := Ok(newId);
    }

    /** One call of the publisher for a claimed row. */
    method PublishOnce(publisher: nat -> Attempt, row: Uuid, ghost tx: TxId, ghost log: seq<Delivery>, ghost k: nat)
      returns (outcome: Attempt, ghost sent: nat)
      requires Tracks() && nextId !in view.minted && row in rows && broker == log + Copies(Message(rows, row), k)
      requires forall outcome :: Enabled(view, Publish(tx, outcome, nextId))
      requires view.open[tx].claimed[view.open[tx].pos] == row
      modifies this`broker, this`calls, this`view, this`history
      ensures Tracks() && old(history) <= history
      ensures view == Apply(old(view), Publish(tx, outcome, nextId))
      ensures broker == log + Copies(Message(rows, row), sent) && sent == if outcome.Rejected? then k else k + 1
      ensures outcome == publisher(old(calls)) && calls == old(calls) + 1
    {
      outcome := publisher(calls);
      sent := if outcome.Rejected? then k else k + 1;
      OneMore(log, Message(rows, row), k);
      calls := calls + 1;
      ghost var step := Publish(tx, outcome, nextId);
      ExecAppend(INIT, history, step);
      if !outcome.Rejected? {
        var event := rows[row].event;
        broker := broker + [Delivery(row, event.subject, event.payload)];
      }
      view, history := Apply(view, step), history + [step];
    }

    /** One iteration of the attempt loop. */
    method NextAttempt(publisher: nat -> Attempt, row: Uuid, attempt: nat, ghost tx: TxId, ghost start: State,
                       ghost from: nat, ghost log: seq<Delivery>, ghost k: nat)
      returns (outcome: Attempt, ghost sent: nat)
      requires tx in start.open && start.open[tx].Batch? && AtRow(start, tx, row, start.open[tx].maxAttempts)
      requires Tracks() && nextId !in start.minted && 0 < attempt <= start.open[tx].maxAttempts
      requires Midway(start, view, tx, row, false, attempt, nextId) && Trying(publisher, from, calls, false, k)
      requires row in rows && broker == log + Copies(Message(rows, row), k)
      modifies this`broker, this`calls, this`view, this`history
      ensures Tracks() && old(history) <= history && calls == old(calls) + 1
      ensures Midway(start, view, tx, row, outcome.Acknowledged?, attempt + 1, nextId)
      ensures Trying(publisher, from, calls, outcome.Acknowledged?, sent)
      ensures broker == log + Copies(Message(rows, row), sent)
    {
      MidwayEnabled(start, view, tx, row, attempt, nextId);
      TryingNext(publisher, from, calls, k);
      ghost var before := view;
      outcome, sent := PublishOnce(publisher, row, tx, log, k);
      MidwayStep(start, before, tx, row, attempt, outcome, nextId);
    }

    /** The attempt loop of `publish_batch` for one claimed row. */
    method Attempts(publisher: nat -> Attempt, row: Uuid, maxAttempts: nat, ghost tx: TxId)
      returns (ok: bool, failed: bool, ghost sent: nat, ghost next: nat)
      requires Tracks() && AtRow(view, tx, row, maxAttempts) && nextId !in view.minted
      modifies this`broker, this`calls, this`view, this`history
      ensures Tracks() && old(history) <= history
      ensures 1 <= next <= maxAttempts + 1 && calls == old(calls) + next - 1 && (ok || next > maxAttempts)
      ensures failed <==> next > 1 && !ok
      ensures Midway(old(view), view, tx, row, ok, next, nextId)
      ensures Trying(publisher, old(calls), calls, ok, sent)
      ensures row in rows && broker == old(broker) + Copies(Message(rows, row), sent)
    {
      ok, failed, sent := false, false, 0;
      var attempt := 1;
      MidwayStart(view, tx, row, maxAttempts, nextId);
      while attempt <= maxAttempts && !ok
        invariant 1 <= attempt <= maxAttempts + 1 && calls == old(calls) + attempt - 1
        invariant Tracks() && old(history) <= history
        invariant failed <==> attempt > 1 && !ok
        invariant Midway(old(view), view, tx, row, ok, attempt, nextId)
        invariant Trying(publisher, old(calls), calls, ok, sent)
        invariant broker == old(broker) + Copies(Message(rows, row), sent)
      {
        var outcome;
        outcome, sent := NextAttempt(publisher, row, attempt, tx, old(view), old(calls), old(broker), sent);
        ok := outcome.Acknowledged?;
        failed := !ok;
        attempt := attempt + 1;
      }
      next := attempt;
    }

    /** The row is published exactly if an attempt is acknowledged, at the first one; if none is, all
        attempts are used and it failed. */
    method TryPublish(publisher: nat -> Attempt, row: Uuid, maxAttempts: nat, ghost tx: TxId)
      returns (ok: bool, failed: bool, ghost sent: nat)
      requires Tracks() && AtRow(view, tx, row, maxAttempts) && nextId !in view.minted
      modifies this`broker, this`calls, this`view, this`history
      ensures Tracks() && old(history) <= history
      ensures !(ok && failed) && (ok || failed <==> maxAttempts > 0)
      ensures AfterRow(old(view), view, tx, row, ok, failed, nextId)
      ensures row in rows && broker == old(broker) + Copies(Message(rows, row), sent)
      ensures Tried(publisher, old(calls), calls, maxAttempts, ok) && sent == Reaching(publisher, old(calls), calls)
      ensures ok <==> Acked(publisher, old(calls), old(calls) + maxAttempts)
    {
      ghost var next;
      ok, failed, sent, next := Attempts(publisher, row, maxAttempts, tx);
      TriedMeans(publisher, old(calls), calls, maxAttempts, ok);
    }

    /** Opens the transaction of a batch and locks its rows. */
    method LockBatch(claimed: seq<Uuid>, ghost limit: nat, ghost maxAttempts: nat) returns (ghost tx: TxId)
      requires Valid() && ClaimedBatch(view, claimed, limit)
      modifies this`locked, this`view, this`history, this`nextTx
      ensures Valid() && old(history) <= history
      ensures AllIn(rows, claimed)
      ensures Opened(old(view), view, tx, claimed, maxAttempts)
    {
      tx := nextTx;
      ghost var after := ClaimRuns(view, history, tx, claimed, limit, maxAttempts, nextId);
      locked := locked + Members(claimed);
      view, history := after, history + [Claim(tx, claimed, limit, maxAttempts)];
      nextTx := nextTx + 1;
    }

    /** `claim_unpublished`: locks the oldest rows that are available. */
    method ClaimUnpublished(limit: nat, ghost maxAttempts: nat) returns (claimed: seq<Uuid>, ghost tx: TxId)
      requires Valid()
      modifies this`locked, this`view, this`history, this`nextTx
      ensures Valid() && old(history) <= history
      ensures ClaimedBatch(old(view), claimed, limit) && |claimed| == Min(|Available(rows, old(locked))|, limit)
      ensures AllIn(rows, claimed)
      ensures Opened(old(view), view, tx, claimed, maxAttempts)
    {
      claimed := SelectOldest(rows, locked, limit);
      assert ClaimedBatch(view, claimed, limit) by {
        SelectionIsClaim(view, claimed, limit);
      }
      tx := LockBatch(claimed, limit, maxAttempts);
    }

    /** The commit that ends a batch. */
    method CommitWrites(claimed: seq<Uuid>, ghost maxAttempts: nat, marked: set<Uuid>, dead: map<Uuid, DlqRow>,
                        ghost tx: TxId, ghost start: State)
      requires Valid() && WithinBatch(start, view, tx, Batch(claimed, maxAttempts, |claimed|, 0, marked, dead))
      requires forall d <- dead :: d < nextId && d !in dlq
      modifies this`rows, this`dlq, this`locked, this`view, this`history
      ensures Valid() && old(history) <= history
      ensures view.open == start.open - {tx} && locked == start.locks.Keys - Members(claimed)
      ensures rows == MarkPublished(start.rows, marked) && dlq == start.dlq + dead
    {
      ghost var b := Batch(claimed, maxAttempts, |claimed|, 0, marked, dead);
      ghost var after := CommitRuns(start, view, history, tx, b, nextId, nextTx);
      rows, dlq, locked := MarkPublished(rows, marked), dlq + dead, locked - Members(claimed);
      view, history := after, history + [Commit(tx)];
    }

    /** The rollback when the database fails: what was published stays published. */
    method Rollback(claimed: seq<Uuid>, ghost b: Tx, ghost tx: TxId, ghost start: State)
      requires Valid() && b.Batch? && b.claimed == claimed && WithinBatch(start, view, tx, b)
      modifies this`locked, this`view, this`history
      ensures Valid() && old(history) <= history
      ensures view.open == start.open - {tx} && locked == start.locks.Keys - Members(claimed)
      ensures rows == start.rows && dlq == start.dlq
    {
      ghost var after := AbortRuns(start, view, history, tx, b, nextId, nextTx);
      locked := locked - Members(claimed);
      view, history := after, history + [Abort(tx)];
    }

    /** One iteration of the batch loop: publish the row, or use up an id to dead-letter it. */
    method HandleRow(publisher: nat -> Attempt, id: Uuid, maxAttempts: nat, ghost b: Tx, ghost tx: TxId,
                     ghost start: State)
      returns (ok: bool, ghost sent: nat)
      requires Valid() && maxAttempts > 0 && id in rows && b.Batch? && WithinBatch(start, view, tx, b)
      requires b.maxAttempts == maxAttempts && b.attempts == 0 && b.pos < |b.claimed| && b.claimed[b.pos] == id
      modifies this`broker, this`calls, this`nextId, this`view, this`history
      ensures Valid() && old(history) <= history && nextId == old(nextId) + if ok then 0 else 1
      ensures WithinBatch(start, view, tx, RowDone(b, id, ok, old(nextId), rows[id].event))
      ensures broker == old(broker) + Copies(Message(rows, id), sent)
      ensures Tried(publisher, old(calls), calls, maxAttempts, ok) && sent == Reaching(publisher, old(calls), calls)
    {
      ghost var before := view;
      var failed;
      ok, failed, sent := TryPublish(publisher, id, maxAttempts, tx);
      RowHandled(start, before, view, tx, b, id, ok, nextId, nextTx);
      if failed {
        nextId := nextId + 1;
      }
    }

    /** The state of the batch loop before row i. */
    ghost predicate Working(start: State, tx: TxId, claimed: seq<Uuid>, maxAttempts: nat, i: nat,
                            n: nat, marked: set<Uuid>, dead: DlqInserts)
      reads this
    {
      && Valid()
      && WithinBatch(start, view, tx, Batch(claimed, maxAttempts, i, 0, marked, Inserted(dead)))
      && NewRows(dead, dlq, nextId) && Progress(claimed, i, maxAttempts, n, marked, dead)
    }

    /** One iteration of the batch loop when no attempts are allowed. */
    ghost method PassRow(claimed: seq<Uuid>, i: nat, n: nat, marked: set<Uuid>, dead: DlqInserts, tx: TxId,
                         start: State)
      requires Working(start, tx, claimed, 0, i, n, marked, dead) && i < |claimed|
      modifies this`view, this`history
      ensures Working(start, tx, claimed, 0, i + 1, n, marked, dead) && old(history) <= history
    {
      var b := Batch(claimed, 0, i, 0, marked, Inserted(dead));
      var after := PassRuns(start, view, history, tx, b, nextId, nextTx);
      view, history := after, history + [PassOver(tx)];
      ProgressPass(claimed, i, n, marked, dead);
    }

    /** One iteration of the batch loop when attempts are allowed. */
    method NextRow(publisher: nat -> Attempt, claimed: seq<Uuid>, i: nat, maxAttempts: nat,
                   n: nat, marked: set<Uuid>, dead: DlqInserts, ghost tx: TxId, ghost start: State)
      returns (n': nat, marked': set<Uuid>, dead': DlqInserts, ghost sent: nat, ghost ok: bool)
      requires Working(start, tx, claimed, maxAttempts, i, n, marked, dead) && maxAttempts > 0
      requires i < |claimed| && claimed[i] in rows
      modifies this`broker, this`calls, this`nextId, this`view, this`history
      ensures Working(start, tx, claimed, maxAttempts, i + 1, n', marked', dead') && old(history) <= history
      ensures broker == old(broker) + Copies(Message(rows, claimed[i]), sent)
      ensures Tried(publisher, old(calls), calls, maxAttempts, ok) && sent == Reaching(publisher, old(calls), calls)
      ensures n' == (if ok then n + 1 else n)
      ensures dead' == if ok then dead
                       else dead + [(old(nextId), DlqRow(claimed[i], rows[claimed[i]].event, false))]
    {
      var id, dlqId := claimed[i], nextId;
      var row := DlqRow(id, rows[id].event, false);
      ghost var b := Batch(claimed, maxAttempts, i, 0, marked, Inserted(dead));
      var published;
      published, sent := HandleRow(publisher, id, maxAttempts, b, tx, start);
      ok := published;
      n', marked' := if published then n + 1 else n, marked + {id};
      dead' := if published then dead else dead + [(dlqId, row)];
      RowRecorded(b, claimed, i, n, dead, id, ok, dlq, dlqId, row, dead');
    }

    /** What the broker got since `log`, and the loop's variables, follow from the publisher's answers
        since call `from`. */
    ghost predicate Logged(publisher: nat -> Attempt, from: nat, log: seq<Delivery>, start: State, claimed: seq<Uuid>,
                           maxAttempts: nat, i: nat, n: nat, sent: seq<nat>, dead: DlqInserts)
      requires i <= |claimed| && AllIn(start.rows, claimed)
      reads this
    {
      && |sent| == i && broker == log + Sent(start.rows, claimed, sent)
      && Answered(publisher, from, maxAttempts, start.rows, claimed, i, calls, n, sent, dead)
    }

    /** One iteration of the batch loop, with what it does to the broker. */
    method LoggedRow(publisher: nat -> Attempt, claimed: seq<Uuid>, i: nat, maxAttempts: nat, n: nat, marked: set<Uuid>,
                     dead: DlqInserts, ghost tx: TxId, ghost start: State, ghost from: nat, ghost log: seq<Delivery>,
                     ghost sent: seq<nat>)
      returns (n': nat, marked': set<Uuid>, dead': DlqInserts, ghost sent': seq<nat>)
      requires i < |claimed| && AllIn(start.rows, claimed)
      requires Working(start, tx, claimed, maxAttempts, i, n, marked, dead)
      requires Logged(publisher, from, log, start, claimed, maxAttempts, i, n, sent, dead)
      modifies this`broker, this`calls, this`nextId, this`view, this`history
      ensures Working(start, tx, claimed, maxAttempts, i + 1, n', marked', dead') && old(history) <= history
      ensures Logged(publisher, from, log, start, claimed, maxAttempts, i + 1, n', sent', dead')
    {
      ghost var k, ok := 0, false;
      n', marked', dead' := n, marked, dead;
      if maxAttempts > 0 {
        n', marked', dead', k, ok := NextRow(publisher, claimed, i, maxAttempts, n, marked, dead, tx, start);
        AnsweredRow(publisher, from, maxAttempts, start.rows, claimed, i, old(calls), n, sent, dead,
                    calls, ok, old(nextId));
      } else {
        PassRow(claimed, i, n, marked, dead, tx, start);
        AnsweredPass(publisher, from, start.rows, claimed, i, calls, n, sent, dead);
      }
      SentMore(start.rows, claimed, sent, k, log);
      sent' := sent + [k];
    }

    /** The batch loop, over the rows before the one at which an error ends it, if any does. */
    method WorkThrough(publisher: nat -> Attempt, claimed: seq<Uuid>, stop: nat, maxAttempts: nat,
                       ghost tx: TxId, ghost start: State)
      returns (n: nat, marked: set<Uuid>, dead: DlqInserts, ghost sent: seq<nat>)
      requires Working(start, tx, claimed, maxAttempts, 0, 0, {}, []) && stop <= |claimed| && AllIn(start.rows, claimed)
      modifies this`broker, this`calls, this`nextId, this`view, this`history
      ensures Working(start, tx, claimed, maxAttempts, stop, n, marked, dead) && old(history) <= history
      ensures Logged(publisher, old(calls), old(broker), start, claimed, maxAttempts, stop, n, sent, dead)
    {
      n, marked, dead, sent := 0, {}, [], [];
      AnsweredStart(publisher, calls, maxAttempts, start.rows, claimed);
      for i := 0 to stop
        invariant Working(start, tx, claimed, maxAttempts, i, n, marked, dead) && old(history) <= history
        invariant Logged(publisher, old(calls), old(broker), start, claimed, maxAttempts, i, n, sent, dead)
      {
        n, marked, dead, sent :=
          LoggedRow(publisher, claimed, i, maxAttempts, n, marked, dead, tx, start, old(calls), old(broker), sent);
      }
    }

    /** The commit of a batch; or the rollback, if an error ended its loop after `stop` rows or the
        commit fails. */
    method Finish(claimed: seq<Uuid>, failing: bool, ghost stop: nat, ghost maxAttempts: nat, ghost n: nat,
                  marked: set<Uuid>, dead: DlqInserts, ghost tx: TxId, ghost start: State)
      requires Working(start, tx, claimed, maxAttempts, stop, n, marked, dead) && (!failing ==> stop == |claimed|)
      modifies this`rows, this`dlq, this`locked, this`view, this`history
      ensures Valid() && old(history) <= history
      ensures view.open == start.open - {tx} && locked == start.locks.Keys - Members(claimed)
      ensures failing ==> rows == start.rows && dlq == start.dlq
      ensures !failing ==> rows == MarkPublished(start.rows, if maxAttempts == 0 then {} else Members(claimed))
      ensures !failing ==> dlq == start.dlq + Inserted(dead) && NewRows(dead, start.dlq, nextId)
      ensures !failing && maxAttempts > 0 ==> n + |dead| == |claimed|
    {
      if failing {
        Rollback(claimed, Batch(claimed, maxAttempts, stop, 0, marked, Inserted(dead)), tx, start);
      } else {
        ProgressDone(claimed, maxAttempts, n, marked, dead);
        NewRowsInserted(dead, dlq, nextId);
        CommitWrites(claimed, maxAttempts, marked, Inserted(dead), tx, start);
      }
    }

    /** The batch loop, with the size of what it sent. */
    method WorkAndCount(publisher: nat -> Attempt, claimed: seq<Uuid>, stop: nat, maxAttempts: nat,
                        ghost tx: TxId, ghost start: State)
      returns (n: nat, marked: set<Uuid>, dead: DlqInserts, ghost sent: seq<nat>)
      requires Working(start, tx, claimed, maxAttempts, 0, 0, {}, []) && stop <= |claimed| && AllIn(start.rows, claimed)
      modifies this`broker, this`calls, this`nextId, this`view, this`history
      ensures Working(start, tx, claimed, maxAttempts, stop, n, marked, dead) && old(history) <= history
      ensures Logged(publisher, old(calls), old(broker), start, claimed, maxAttempts, stop, n, sent, dead)
      ensures n <= |broker| - |old(broker)| <= stop * maxAttempts
    {
      n, marked, dead, sent := WorkThrough(publisher, claimed, stop, maxAttempts, tx, start);
      AnsweredSize(publisher, old(calls), maxAttempts, start.rows, claimed, stop, calls, n, sent, dead);
    }

    /** The batch loop and its end. */
    method Settle(publisher: nat -> Attempt, claimed: seq<Uuid>, failing: bool, stop: nat, maxAttempts: nat,
                  ghost tx: TxId, ghost start: State)
      returns (n: nat, ghost dead: DlqInserts, ghost sent: seq<nat>)
      requires Working(start, tx, claimed, maxAttempts, 0, 0, {}, []) && stop <= |claimed| && AllIn(start.rows, claimed)
      requires !failing ==> stop == |claimed|
      modifies this
      ensures Valid() && old(history) <= history
      ensures view.open == start.open - {tx} && locked == start.locks.Keys - Members(claimed)
      ensures failing ==> rows == start.rows && dlq == start.dlq
      ensures !failing ==> rows == MarkPublished(start.rows, if maxAttempts == 0 then {} else Members(claimed))
      ensures !failing ==> dlq == start.dlq + Inserted(dead) && NewRows(dead, start.dlq, nextId)
      ensures !failing && maxAttempts > 0 ==> n + |dead| == |claimed|
      ensures |sent| == stop && broker == old(broker) + Sent(start.rows, claimed, sent)
      ensures Answered(publisher, old(calls), maxAttempts, start.rows, claimed, stop, calls, n, sent, dead)
      ensures n <= |broker| - |old(broker)| <= stop * maxAttempts
    {
      var marked, failed;
      n, marked, failed, sent := WorkAndCount(publisher, claimed, stop, maxAttempts, tx, start);
      dead := failed;
      Finish(claimed, failing, stop, maxAttempts, n, marked, failed, tx, start);
    }

    /** The body of `publish_batch`. */
    method RunBatch(publisher: nat -> Attempt, failsAfter: Option<nat>, limit: nat, maxAttempts: nat)
      returns (r: Result<nat, RelayError>, ghost batch: seq<Uuid>, ghost sent: seq<nat>, ghost dead: DlqInserts)
      requires Valid()
      modifies this
      ensures Valid() && old(history) <= history
      ensures view.open == old(view).open && locked == old(locked)
      ensures ClaimedBatch(old(view), batch, limit) && |batch| == Min(|Available(old(rows), old(locked))|, limit)
      ensures r.Err? <==> failsAfter.Some? && failsAfter.value <= |batch|
      ensures r.Err? ==> rows == old(rows) && dlq == old(dlq)
      ensures r.Ok? ==> rows == MarkPublished(old(rows), if maxAttempts == 0 then {} else Members(batch))
      ensures r.Ok? && maxAttempts > 0 ==> r.value + |dead| == |batch|
      ensures AllIn(old(rows), batch) && |sent| == (if r.Ok? then |batch| else failsAfter.value)
      ensures broker == old(broker) + Sent(old(rows), batch, sent)
      ensures sent == Stored(publisher, old(calls), maxAttempts, |sent|)
      ensures calls == CallsAfter(publisher, old(calls), maxAttempts, |sent|)
      ensures r.Ok? ==> r.value == AckedRows(publisher, old(calls), maxAttempts, |batch|)
      ensures r.Ok? ==> dlq == old(dlq) + Inserted(dead) && NewRows(dead, old(dlq), nextId)
      ensures r.Ok? ==> RowsOf(dead) == Unacked(publisher, old(calls), maxAttempts, old(rows), batch, |batch|)
      ensures r.Ok? ==> r.value <= |broker| - |old(broker)| <= |batch| * maxAttempts
    {
      var claimed;
      ghost var tx;
      claimed, tx := ClaimUnpublished(limit, maxAttempts);
      batch := claimed;
      ghost var start := view;
      LocksReleased(old(view), start, tx, claimed, maxAttempts);
      assert start.rows == old(rows) && broker == old(broker) && calls == old(calls);
      ProgressStart(claimed, maxAttempts);
      var failing := failsAfter.Some? && failsAfter.value <= |claimed|;
      var stop := if failing then failsAfter.value else |claimed|;
      var n;
      n, dead, sent := Settle(publisher, claimed, failing, stop, maxAttempts, tx, start);
      assert broker == old(broker) + Sent(old(rows), claimed, sent);
      r := if failing then Err(Database) else Ok(n);
    }

    /** `publish_batch`: a run of the protocol that claims the oldest available rows and settles
        every one of them, either published or dead-lettered; or, if an error occurs after some
        rows or at the commit, changes no table. Other open transactions stay as they are. The
        broker gets the messages of the batch in order, those of row i `sent[i]` times; the rows
        that no attempt got acknowledged are dead-lettered. */
    method PublishBatch(publisher: nat -> Attempt, failsAfter: Option<nat>, limit: nat, maxAttempts: nat)
      returns (r: Result<nat, RelayError>, ghost batch: seq<Uuid>, ghost sent: seq<nat>, ghost dead: DlqInserts)
      requires Valid()
      modifies this
      ensures Valid() && old(history) <= history
      ensures view.open == old(view).open && locked == old(locked)
      ensures ClaimedBatch(old(view), batch, limit) && |batch| == Min(|Available(old(rows), old(locked))|, limit)
      ensures r.Err? <==> failsAfter.Some? && failsAfter.value <= |batch|
      ensures r.Err? ==> rows == old(rows) && dlq == old(dlq)
      ensures r.Ok? ==> rows == MarkPublished(old(rows), if maxAttempts == 0 then {} else Members(batch))
      ensures r.Ok? && maxAttempts > 0 ==>
                Lag(view) == Lag(old(view)) - |batch| && r.value + |dlq| == |old(dlq)| + |batch|
      ensures AllIn(old(rows), batch) && |sent| == (if r.Ok? then |batch| else failsAfter.value)
      ensures broker == old(broker) + Sent(old(rows), batch, sent)
      ensures sent == Stored(publisher, old(calls), maxAttempts, |sent|)
      ensures calls == CallsAfter(publisher, old(calls), maxAttempts, |sent|)
      ensures r.Ok? ==> r.value == AckedRows(publisher, old(calls), maxAttempts, |batch|)
      ensures r.Ok? ==> dlq == old(dlq) + Inserted(dead) && NewRows(dead, old(dlq), nextId)
      ensures r.Ok? ==> RowsOf(dead) == Unacked(publisher, old(calls), maxAttempts, old(rows), batch, |batch|)
      ensures r.Ok? ==> r.value <= |broker| - |old(broker)| <= |batch| * maxAttempts
    {
      r, batch, sent, dead := RunBatch(publisher, failsAfter, limit, maxAttempts);
      if r.Ok? && maxAttempts > 0 {
        BatchOutcome(old(view), view, batch, limit, dead, r.value, nextId);
      }
    }

    /** `relay_once`: a batch with three attempts per row. */
    method RelayOnce(publisher: nat -> Attempt, fault: Option<nat>, batchSize: nat)
      returns (r: Result<nat, RelayError>, ghost batch: seq<Uuid>)
      requires Valid()
      modifies this
      ensures Valid() && old(history) <= history && locked == old(locked)
      ensures ClaimedBatch(old(view), batch, batchSize)
      ensures |batch| == Min(|Available(old(rows), old(locked))|, batchSize)
      ensures r.Err? <==> fault.Some? && fault.value <= |batch|
      ensures r.Err? ==> rows == old(rows)
      ensures r.Ok? ==> rows == MarkPublished(old(rows), Members(batch)) && Lag(view) == Lag(old(view)) - |batch|
      ensures r.Ok? ==> r.value == AckedRows(publisher, old(calls), 3, |batch|)
      ensures r.Ok? ==> calls == CallsAfter(publisher, old(calls), 3, |batch|)
    {
      ghost var sent, dead;
      r, batch, sent, dead := PublishBatch(publisher, fault, batchSize, 3);
    }

    /** Ticks of `relay_once` until nothing is left that other relays do not hold: each tick that
        succeeds takes a whole batch off the backlog, whatever the publisher does. `faults` is what
        goes wrong in the first ticks. */
    method Drain(publisher: nat -> Attempt, faults: seq<Option<nat>>, batchSize: nat) returns (done: nat, failed: nat)
      requires Valid() && batchSize > 0
      modifies this
      ensures Valid() && old(history) <= history && locked == old(locked)
      ensures Available(rows, locked) == {}
      ensures Lag(view) == Lag(old(view)) - |Available(old(rows), old(locked))|
      ensures Tally(done, failed, 0)
              == TallyAfter(faults, batchSize, |Available(old(rows), old(locked))|, done + failed)
      ensures failed <= |faults| && done * batchSize < |Available(old(rows), old(locked))| + batchSize
    {
      ghost var all, trail := |Available(rows, locked)|, [];
      done, failed, trail := Ticks(publisher, faults, batchSize, all);
      TrailIs(faults, batchSize, all, trail, |trail| - 1);
      TallyBounds(faults, batchSize, all, done + failed);
    }

    /** So many rows are available. */
    ghost predicate Waiting(left: nat)
      reads this
    {
      left == |Available(rows, locked)|
    }

    method AnyWaiting(ghost left: nat) returns (more: bool)
      requires Waiting(left)
      ensures more <==> left > 0
    {
      more := Available(rows, locked) != {};
    }

    /** One tick of a drain, and the tally after it. */
    method NextTick(publisher: nat -> Attempt, faults: seq<Option<nat>>, batchSize: nat, tick: nat, ghost was: Tally)
      returns (ok: bool, more: bool, ghost now: Tally)
      requires Valid() && batchSize > 0 && Waiting(was.left) && was.left > 0
      modifies this
      ensures Valid() && old(history) <= history && locked == old(locked)
      ensures Waiting(now.left) && (more <==> now.left > 0) && Lag(view) - now.left == Lag(old(view)) - was.left
      ensures now == TallyNext(faults, batchSize, tick, was)
      ensures if ok then now.done == was.done + 1 && now.failed == was.failed && now.left < was.left
              else now.done == was.done && now.failed == was.failed + 1 && now.left == was.left && tick < |faults|
    {
      ghost var left;
      ok, left := Tick(publisher, if tick < |faults| then faults[tick] else None, batchSize, was.left);
      now := TallyNext(faults, batchSize, tick, was);
      more := AnyWaiting(left);
    }

    /** The ticks of a drain. */
    method Ticks(publisher: nat -> Attempt, faults: seq<Option<nat>>, batchSize: nat, ghost all: nat)
      returns (done: nat, failed: nat, ghost trail: seq<Tally>)
      requires Valid() && batchSize > 0 && Waiting(all)
      modifies this
      ensures Valid() && old(history) <= history && locked == old(locked)
      ensures Waiting(0) && Lag(view) == Lag(old(view)) - all
      ensures Trail(faults, batchSize, all, trail) && trail[|trail| - 1] == Tally(done, failed, 0)
      ensures |trail| == done + failed + 1
    {
      done, failed := 0, 0;
      var tick := 0;
      ghost var now, base := Tally(0, 0, all), Lag(view) - all;
      trail := [now];
      var more := AnyWaiting(all);
      while more
        invariant Valid() && old(history) <= history && locked == old(locked)
        invariant Waiting(now.left) && (more <==> now.left > 0) && Lag(view) - now.left == base
        invariant Trail(faults, batchSize, all, trail) && trail[|trail| - 1] == now && |trail| == tick + 1
        invariant now.done == done && now.failed == failed && tick == done + failed && failed <= |faults|
        decreases now.left, |faults| - failed
      {
        var ok;
        ok, more, now := NextTick(publisher, faults, batchSize, tick, now);
        TrailMore(faults, batchSize, all, trail, now);
        trail := trail + [now];
        if ok {
          done := done + 1;
        } else {
          failed := failed + 1;
        }
        tick := tick + 1;
      }
    }

    /** One tick of a drain. */
    method Tick(publisher: nat -> Attempt, fault: Option<nat>, batchSize: nat, ghost was: nat)
      returns (ok: bool, ghost left: nat)
      requires Valid() && batchSize > 0 && Waiting(was) && was > 0
      modifies this
      ensures Valid() && old(history) <= history && locked == old(locked)
      ensures Waiting(left) && Lag(view) - left == Lag(old(view)) - was
      ensures ok <==> !Hits(fault, was, batchSize)
      ensures left == if ok then was - Min(was, batchSize) else was
    {
      var r;
      ghost var batch;
      r, batch := RelayOnce(publisher, fault, batchSize);
      ok := r.Ok?;
      left := if ok then was - |batch| else was;
      if ok {
        ClaimIsAvailable(old(view), batch, batchSize);
        LessAvailable(old(view).rows, old(view).locks.Keys, batch);
      }
    }
  }
}
