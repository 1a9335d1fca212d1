/** What the outbox protocol guarantees over every run: nothing is lost, nothing is invented,
    duplicates are bounded, replays happen once, and the lag obeys a conservation law. */
module OutboxGuarantees {
  import opened OutboxProtocol

  lemma {:induction false} InitInv()
    ensures Inv(INIT)
  {
  }

  /** The invariant of every reachable state. */
  lemma {:induction false} Reachable(steps: seq<Step>)
    requires Legal(INIT, steps)
    ensures Inv(Exec(INIT, steps))
  {
    InitInv();
    RunKeeps(INIT, steps);
  }

  // Rows are append-only

  /** Rows stay, keep their event and their origin, and never become unpublished again. */
  ghost predicate Extends(s: State, t: State) {
    forall id <- s.rows | id in s.origin ::
      && id in t.rows && t.rows[id].event == s.rows[id].event
      && id in t.origin && t.origin[id] == s.origin[id]
      && (s.rows[id].published ==> t.rows[id].published)
  }

  /** Only inserts and commits change the tables of rows. */
  lemma {:induction false} SameRows(s: State, step: Step)
    requires Enabled(s, step) && !step.Insert? && !step.Commit?
    ensures Apply(s, step).rows == s.rows && Apply(s, step).origin == s.origin
  {
    match step
    case Claim(_, _, _, _) =>
    case Publish(_, _, _) =>
    case PassOver(_) =>
    case LockDlq(_, _, _, _) =>
    case Abort(tx) => AbortSameRows(s, tx);
  }

  lemma {:induction false} AbortSameRows(s: State, tx: TxId)
    requires Enabled(s, Abort(tx))
    ensures Apply(s, Abort(tx)).rows == s.rows && Apply(s, Abort(tx)).origin == s.origin
  {
  }

  lemma {:induction false} BatchExtends(s: State, tx: TxId)
    requires tx in s.open && s.open[tx].Batch?
    ensures Extends(s, CommitBatch(s, tx))
  {
  }

  lemma {:induction false} ReplayExtends(s: State, tx: TxId)
    requires OriginWf(s) && ReplayReady(s, tx)
    ensures Extends(s, CommitReplay(s, tx))
  {
  }

  lemma {:induction false} StepExtends(s: State, step: Step)
    requires OriginWf(s) && Enabled(s, step)
    ensures Extends(s, Apply(s, step))
  {
    if step.Commit? {
      if s.open[step.tx].Batch? {
        BatchExtends(s, step.tx);
      } else {
        ReplayExtends(s, step.tx);
      }
    } else if !step.Insert? {
      SameRows(s, step);
    }
  }

  lemma {:induction false} RunExtends(s: State, steps: seq<Step>)
    requires Inv(s) && Legal(s, steps)
    ensures Extends(s, Exec(s, steps))
    decreases |steps|
  {
    if steps != [] {
      var t := Apply(s, steps[0]);
      StepExtends(s, steps[0]);
      StepKeeps(s, steps[0]);
      RunExtends(t, steps[1..]);
      assert OriginWf(t);
    }
  }

  // Nothing lost

  /** Some row of the chain that began with `id` carries the event and is unpublished, delivered,
      or waiting in the DLQ. */
  ghost predicate AccountedFor(t: State, id: Uuid, event: Event) {
    && OriginWf(t)
    && exists row <- t.rows :: t.origin[row] == id && t.rows[row].event == event && Live(t, row)
  }

  lemma {:induction false} AliveIsAccountedFor(t: State, id: Uuid)
    requires OriginWf(t) && NothingLost(t) && id in t.rows && t.origin[id] == id
    ensures AccountedFor(t, id, t.rows[id].event)
  {
    assert KeptAlive(t, id);
    var row :| row in t.rows && t.origin[row] == id && Live(t, row);
    assert t.rows[row].event == t.rows[id].event;
  }

  lemma {:induction false} AliveAfterInsert(s: State, steps: seq<Step>, id: Uuid)
    requires Inv(s) && Legal(s, steps) && id in s.rows && s.origin[id] == id
    ensures AccountedFor(Exec(s, steps), id, s.rows[id].event)
  {
    var t := Exec(s, steps);
    RunKeeps(s, steps);
    RunExtends(s, steps);
    assert id in t.rows && t.origin[id] == id && t.rows[id].event == s.rows[id].event;
    AliveIsAccountedFor(t, id);
  }

  lemma {:induction false} InsertedRow(s: State, step: Step)
    requires Enabled(s, step) && step.Insert?
    ensures var t := Apply(s, step);
            && step.id in t.rows && t.rows[step.id].event == step.event
            && step.id in t.origin && t.origin[step.id] == step.id
  {
  }

  lemma {:induction false} RunSplit(s: State, steps: seq<Step>, k: nat)
    requires Legal(s, steps) && k <= |steps|
    ensures Legal(s, steps[..k]) && Legal(Exec(s, steps[..k]), steps[k..])
    ensures Exec(Exec(s, steps[..k]), steps[k..]) == Exec(s, steps)
    decreases |steps|
  {
    if k == 0 {
      assert steps[k..] == steps;
    } else {
      RunSplit(Apply(s, steps[0]), steps[1..], k - 1);
      assert steps[..k][1..] == steps[1..][..k - 1] && steps[k..] == steps[1..][k - 1..];
    }
  }

  lemma {:induction false} InsertNotLost(s: State, steps: seq<Step>)
    requires Inv(s) && Legal(s, steps) && steps != [] && steps[0].Insert?
    ensures AccountedFor(Exec(s, steps), steps[0].id, steps[0].event)
  {
    StepKeeps(s, steps[0]);
    InsertedRow(s, steps[0]);
    AliveAfterInsert(Apply(s, steps[0]), steps[1..], steps[0].id);
  }

  /** Every committed event, at every later point of every run, is still accounted for. */
  lemma {:induction false} NoEventLost(s: State, steps: seq<Step>, k: nat)
    requires Inv(s) && Legal(s, steps) && k < |steps| && steps[k].Insert?
    ensures AccountedFor(Exec(s, steps), steps[k].id, steps[k].event)
  {
    RunSplit(s, steps, k);
    RunKeeps(s, steps[..k]);
    InsertNotLost(Exec(s, steps[..k]), steps[k..]);
  }

  /** A delivered row was delivered with the subject and payload of its event. */
  lemma {:induction false} DeliveredIntact(s: State, row: Uuid)
    requires LogWf(s) && Deliveries(s.log, row) > 0
    ensures row in s.rows
    ensures Delivery(row, s.rows[row].event.subject, s.rows[row].event.payload) in s.log
  {
    if forall k :: 0 <= k < |s.log| ==> s.log[k].row != row {
      NoDeliveries(s.log, row);
    } else {
      var k :| 0 <= k < |s.log| && s.log[k].row == row;
    }
  }

  // Nothing invented

  ghost predicate InsertedBy(steps: seq<Step>, id: Uuid) {
    exists k :: 0 <= k < |steps| && steps[k].Insert? && steps[k].id == id
  }

  lemma {:induction false} InsertedLater(steps: seq<Step>, id: Uuid)
    requires steps != [] && (InsertedBy(steps[1..], id) || (steps[0].Insert? && steps[0].id == id))
    ensures InsertedBy(steps, id)
  {
    if InsertedBy(steps[1..], id) {
      var k :| 0 <= k < |steps| - 1 && steps[1..][k].Insert? && steps[1..][k].id == id;
      assert steps[k + 1].Insert? && steps[k + 1].id == id;
    }
  }

  /** The row begins a chain. */
  predicate Root(s: State, id: Uuid) {
    id in s.origin && s.origin[id] == id
  }

  lemma {:induction false} StepRoots(s: State, step: Step, id: Uuid)
    requires OriginWf(s) && Enabled(s, step) && Root(Apply(s, step), id)
    ensures Root(s, id) || (step.Insert? && step.id == id)
  {
  }

  lemma {:induction false} RunRoots(s: State, steps: seq<Step>, id: Uuid)
    requires Inv(s) && Legal(s, steps) && Root(Exec(s, steps), id)
    ensures Root(s, id) || InsertedBy(steps, id)
    decreases |steps|
  {
    if steps != [] {
      var t := Apply(s, steps[0]);
      StepKeeps(s, steps[0]);
      RunRoots(t, steps[1..], id);
      if Root(t, id) {
        StepRoots(s, steps[0], id);
      }
      if !Root(s, id) {
        InsertedLater(steps, id);
      }
    }
  }

  /** The broker only ever sees committed events: every delivery goes back, through any chain
      of replays, to an insert of the run, with that event's subject and payload. */
  lemma {:induction false} NothingInvented(steps: seq<Step>, k: nat)
    requires Legal(INIT, steps) && k < |Exec(INIT, steps).log|
    ensures var t := Exec(INIT, steps);
            && t.log[k].row in t.rows && t.log[k].row in t.origin
            && InsertedBy(steps, t.origin[t.log[k].row])
            && t.origin[t.log[k].row] in t.rows
            && t.log[k].subject == t.rows[t.origin[t.log[k].row]].event.subject
            && t.log[k].payload == t.rows[t.origin[t.log[k].row]].event.payload
  {
    var t := Exec(INIT, steps);
    InitInv();
    Reachable(steps);
    RunRoots(INIT, steps, t.origin[t.log[k].row]);
  }

  // Duplicates, locks and replays

  /** A row is delivered at most once, plus once for each aborted batch that held it, plus
      once for each of its deliveries that the publisher reported as an error. */
  lemma {:induction false} DuplicatesAreBounded(steps: seq<Step>, id: Uuid)
    requires Legal(INIT, steps) && id in Exec(INIT, steps).rows
    ensures var t := Exec(INIT, steps);
            Deliveries(t.log, id) <= 1 + t.aborted[id] + t.unsure[id]
  {
    Reachable(steps);
    assert DuplicatesBounded(Exec(INIT, steps));
  }

  ghost predicate CrashFree(steps: seq<Step>) {
    forall k :: 0 <= k < |steps| ==>
      !steps[k].Abort? && !(steps[k].Publish? && steps[k].outcome.Unacknowledged?)
  }

  lemma {:induction false} CrashFreeStep(s: State, step: Step)
    requires Enabled(s, step) && !step.Abort? && !(step.Publish? && step.outcome.Unacknowledged?)
    ensures Apply(s, step).aborted == s.aborted && Apply(s, step).unsure == s.unsure
  {
  }

  lemma {:induction false} CrashFreeHistory(s: State, steps: seq<Step>)
    requires Legal(s, steps) && CrashFree(steps)
    ensures Exec(s, steps).aborted == s.aborted && Exec(s, steps).unsure == s.unsure
    decreases |steps|
  {
    if steps != [] {
      CrashFreeStep(s, steps[0]);
      CrashFreeHistory(Apply(s, steps[0]), steps[1..]);
    }
  }

  /** Without aborts and lost acknowledgements the relay delivers no row twice, however many
      relays run. */
  lemma {:induction false} AtMostOnceWithoutCrashes(steps: seq<Step>, id: Uuid)
    requires Legal(INIT, steps) && CrashFree(steps) && id in Exec(INIT, steps).rows
    ensures Deliveries(Exec(INIT, steps).log, id) <= 1
  {
    DuplicatesAreBounded(steps, id);
    CrashFreeHistory(INIT, steps);
  }

  /** Two open batches never hold the same row, and two open replays never the same DLQ row. */
  lemma {:induction false} OpenTransactionsDisjoint(steps: seq<Step>, a: TxId, b: TxId)
    requires Legal(INIT, steps) && a != b && a in Exec(INIT, steps).open && b in Exec(INIT, steps).open
    ensures var open := Exec(INIT, steps).open;
            && (open[a].Batch? && open[b].Batch? ==> forall id <- open[a].claimed :: id !in open[b].claimed)
            && (open[a].Replay? && open[b].Replay? ==> open[a].dlqId != open[b].dlqId)
  {
    var t := Exec(INIT, steps);
    Reachable(steps);
    assert OpenWf(t);
    if t.open[a].Batch? && t.open[b].Batch? {
      assert BatchHolds(t, a, t.open[a]) && BatchHolds(t, b, t.open[b]);
    }
  }

  /** A committed published_at means delivered or dead-lettered, and each DLQ row has been
      replayed once if it is marked replayed and never otherwise. */
  lemma {:induction false} PublishedIsSettled(steps: seq<Step>)
    requires Legal(INIT, steps)
    ensures var t := Exec(INIT, steps);
            && (forall id <- t.rows | t.rows[id].published :: Deliveries(t.log, id) > 0 || DeadLettered(t.dlq, id))
            && (forall d <- t.dlq :: t.replays[d] == if t.dlq[d].replayed then 1 else 0)
            && (forall d <- t.dlq :: t.dlq[d].outboxId in t.rows && t.dlq[d].event == t.rows[t.dlq[d].outboxId].event)
  {
    Reachable(steps);
  }

  lemma {:induction false} ReplayGuards(t: State, tx: TxId, r: Tx)
    requires tx in t.open && t.open[tx] == r && r.Replay? && ReplayHolds(t, tx, r) && DlqWf(t) && OriginWf(t)
    ensures Enabled(t, Commit(tx)) <==> r.newId !in t.rows
  {
  }

  /** The step guards that look up rows exclude nothing in reachable states: a claimed row is
      there to be published, and a replay can always commit unless its new id is taken. */
  lemma {:induction false} GuardsExcludeNothing(steps: seq<Step>, tx: TxId)
    requires Legal(INIT, steps) && tx in Exec(INIT, steps).open
    ensures var t := Exec(INIT, steps);
            && (t.open[tx].Batch? ==> forall id <- t.open[tx].claimed :: id in t.rows && !t.rows[id].published)
            && (t.open[tx].Replay? ==> (Enabled(t, Commit(tx)) <==> t.open[tx].newId !in t.rows))
  {
    var t := Exec(INIT, steps);
    Reachable(steps);
    ghost var open := t.open[tx];
    if open.Batch? {
      assert BatchHolds(t, tx, open);
    } else {
      assert ReplayHolds(t, tx, open);
      ReplayGuards(t, tx, open);
    }
  }

  // Lag

  function Unpublished(rows: map<Uuid, Row>): set<Uuid> {
    set id | id in rows && !rows[id].published
  }

  function Lag(s: State): nat {
    |Unpublished(s.rows)|
  }

  /** Rows a step adds to the backlog. */
  function Arriving(s: State, step: Step): nat
    requires Enabled(s, step)
  {
    if step.Insert? || (step.Commit? && s.open[step.tx].Replay?) then 1 else 0
  }

  /** Rows a step takes off the backlog: the whole batch of a relay with at least one attempt. */
  function Settling(s: State, step: Step): nat
    requires Enabled(s, step)
  {
    if step.Commit? && s.open[step.tx].Batch? && s.open[step.tx].maxAttempts > 0
    then |s.open[step.tx].claimed| else 0
  }

  function Arrived(s: State, steps: seq<Step>): nat
    requires Legal(s, steps)
    decreases |steps|
  {
    if steps == [] then 0 else Arriving(s, steps[0]) + Arrived(Apply(s, steps[0]), steps[1..])
  }

  function Settled(s: State, steps: seq<Step>): nat
    requires Legal(s, steps)
    decreases |steps|
  {
    if steps == [] then 0 else Settling(s, steps[0]) + Settled(Apply(s, steps[0]), steps[1..])
  }

  lemma {:induction false} AddUnpublished(rows: map<Uuid, Row>, id: Uuid, row: Row)
    requires id !in rows && !row.published
    ensures |Unpublished(rows[id := row])| == |Unpublished(rows)| + 1
  {
    assert Unpublished(rows[id := row]) == Unpublished(rows) + {id};
  }

  lemma {:induction false} PrefixSetSize(ids: seq<Uuid>, n: nat)
    requires n <= |ids| && forall i, j :: 0 <= i < j < |ids| ==> ids[i] != ids[j]
    ensures |set i | 0 <= i < n :: ids[i]| == n
  {
    if n > 0 {
      PrefixSetSize(ids, n - 1);
      assert (set i | 0 <= i < n :: ids[i]) == (set i | 0 <= i < n - 1 :: ids[i]) + {ids[n - 1]};
    }
  }

  lemma {:induction false} RemoveUnpublished(rows: map<Uuid, Row>, marked: set<Uuid>)
    requires marked <= Unpublished(rows)
    ensures |Unpublished(MarkPublished(rows, marked))| == |Unpublished(rows)| - |marked|
  {
    assert Unpublished(MarkPublished(rows, marked)) == Unpublished(rows) - marked;
  }

  lemma {:induction false} BatchSettles(s: State, tx: TxId)
    requires OpenWf(s) && BatchReady(s, tx)
    ensures Lag(CommitBatch(s, tx)) == Lag(s) - Settling(s, Commit(tx))
  {
    var b := s.open[tx];
    assert BatchShape(b) && BatchHolds(s, tx, b) && BatchWrites(s, tx, b);
    PrefixSetSize(b.claimed, |b.claimed|);
    assert b.marked <= Unpublished(s.rows);
    RemoveUnpublished(s.rows, b.marked);
  }

  lemma {:induction false} StepLag(s: State, step: Step)
    requires OpenWf(s) && Enabled(s, step)
    ensures Lag(Apply(s, step)) == Lag(s) + Arriving(s, step) - Settling(s, step)
  {
    if step.Insert? {
      AddUnpublished(s.rows, step.id, Row(step.event, step.at, false));
    } else if step.Commit? && s.open[step.tx].Batch? {
      BatchSettles(s, step.tx);
    } else if step.Commit? {
      ReplayArrives(s, step.tx);
    } else {
      SameRows(s, step);
    }
  }

  lemma {:induction false} ReplayArrives(s: State, tx: TxId)
    requires ReplayReady(s, tx)
    ensures Lag(CommitReplay(s, tx)) == Lag(s) + 1
  {
    var Replay(dlqId, newId, at) := s.open[tx];
    AddUnpublished(s.rows, newId, Row(s.dlq[dlqId].event, at, false));
  }

  /** Conservation, over every run with any interleaving: the backlog is what it was, plus the
      inserts and replays, minus the rows of committed batches. Aborted batches count for
      nothing. */
  lemma {:induction false} LagConservation(s: State, steps: seq<Step>)
    requires Inv(s) && Legal(s, steps)
    ensures Lag(Exec(s, steps)) == Lag(s) + Arrived(s, steps) - Settled(s, steps)
    decreases |steps|
  {
    if steps != [] {
      StepLag(s, steps[0]);
      StepKeeps(s, steps[0]);
      LagConservation(Apply(s, steps[0]), steps[1..]);
    }
  }
}
