/** What a batch does to the broker log, to the DLQ and to its own count, as a function of the
    publisher's answers. The publisher is an arbitrary function from the number of the call to
    what the call did. */
module OutboxAnswers {
  import opened OutboxProtocol

  /** The inserts of one batch into the DLQ, in order. */
  type DlqInserts = seq<(Uuid, DlqRow)>

  function Inserted(dead: DlqInserts): map<Uuid, DlqRow> {
    if dead == [] then map[] else Inserted(dead[..|dead| - 1])[dead[|dead| - 1].0 := dead[|dead| - 1].1]
  }

  lemma {:induction false} TickCount(ticks: nat, batchSize: nat)
    ensures (ticks + 1) * batchSize == ticks * batchSize + batchSize
  {
  }

  // What reaches the broker

  function Message(rows: map<Uuid, Row>, id: Uuid): Delivery
    requires id in rows
  {
    Delivery(id, rows[id].event.subject, rows[id].event.payload)
  }

  function Copies(message: Delivery, k: nat): seq<Delivery> {
    if k == 0 then [] else Copies(message, k - 1) + [message]
  }

  lemma {:induction false} OneMore(log: seq<Delivery>, message: Delivery, k: nat)
    ensures (log + Copies(message, k)) + [message] == log + Copies(message, k + 1)
  {
  }

  ghost predicate AllIn(rows: map<Uuid, Row>, batch: seq<Uuid>) {
    forall i :: 0 <= i < |batch| ==> batch[i] in rows
  }

  /** The log entries of a batch in its order: of row i, `sent[i]` copies of its message. */
  ghost function Sent(rows: map<Uuid, Row>, batch: seq<Uuid>, sent: seq<nat>): seq<Delivery>
    requires |sent| <= |batch| && AllIn(rows, batch)
  {
    if sent == [] then []
    else
      var n := |sent| - 1;
      Sent(rows, batch, sent[..n]) + Copies(Message(rows, batch[n]), sent[n])
  }

  lemma {:induction false} SentMore(rows: map<Uuid, Row>, batch: seq<Uuid>, sent: seq<nat>, k: nat, log: seq<Delivery>)
    requires |sent| < |batch| && AllIn(rows, batch)
    ensures (log + Sent(rows, batch, sent)) + Copies(Message(rows, batch[|sent|]), k)
            == log + Sent(rows, batch, sent + [k])
  {
    var more := sent + [k];
    assert more[..|more| - 1] == sent;
  }

  /** How many rows have reached the broker. */
  function Served(sent: seq<nat>): nat {
    if sent == [] then 0 else Served(sent[..|sent| - 1]) + if sent[|sent| - 1] > 0 then 1 else 0
  }

  /** No row was sent more often than attempts are allowed, and at least n rows were sent. */
  ghost predicate Counted(sent: seq<nat>, n: nat, maxAttempts: nat) {
    n <= Served(sent) && forall i :: 0 <= i < |sent| ==> sent[i] <= maxAttempts
  }

  lemma {:induction false} CountedMore(sent: seq<nat>, n: nat, maxAttempts: nat, k: nat, ok: bool)
    requires Counted(sent, n, maxAttempts) && k <= maxAttempts && (ok ==> k > 0)
    ensures Counted(sent + [k], if ok then n + 1 else n, maxAttempts)
  {
    assert (sent + [k])[..|sent|] == sent;
  }

  lemma {:induction false} CopiesSize(message: Delivery, k: nat)
    ensures |Copies(message, k)| == k
  {
    if k > 0 {
      CopiesSize(message, k - 1);
    }
  }

  lemma {:induction false} SentSize(rows: map<Uuid, Row>, batch: seq<Uuid>, sent: seq<nat>, maxAttempts: nat)
    requires |sent| <= |batch| && AllIn(rows, batch) && forall i :: 0 <= i < |sent| ==> sent[i] <= maxAttempts
    ensures Served(sent) <= |Sent(rows, batch, sent)| <= |sent| * maxAttempts
  {
    if sent != [] {
      var n := |sent| - 1;
      SentSize(rows, batch, sent[..n], maxAttempts);
      CopiesSize(Message(rows, batch[n]), sent[n]);
      TickCount(n, maxAttempts);
    }
  }

  // What the publisher answers, by the number of the call

  predicate Acked(publisher: nat -> Attempt, from: nat, to: nat) {
    exists c :: from <= c < to && publisher(c).Acknowledged?
  }

  /** How many of the calls stored their message. */
  function Reaching(publisher: nat -> Attempt, from: nat, to: nat): nat
    requires from <= to
  {
    if from == to then 0 else Reaching(publisher, from, to - 1) + if publisher(to - 1).Rejected? then 0 else 1
  }

  /** Attempts for one row under way. */
  ghost predicate Trying(publisher: nat -> Attempt, from: nat, to: nat, ok: bool, sent: nat) {
    && from <= to && sent == Reaching(publisher, from, to)
    && (if ok then to > from && publisher(to - 1).Acknowledged? && !Acked(publisher, from, to - 1)
        else !Acked(publisher, from, to))
  }

  lemma {:induction false} TryingNext(publisher: nat -> Attempt, from: nat, to: nat, sent: nat)
    requires Trying(publisher, from, to, false, sent)
    ensures var answer := publisher(to);
            Trying(publisher, from, to + 1, answer.Acknowledged?, if answer.Rejected? then sent else sent + 1)
  {
  }

  /** The attempts for one row: they end with the first acknowledgement, or when all are used. */
  ghost predicate Tried(publisher: nat -> Attempt, from: nat, to: nat, maxAttempts: nat, ok: bool) {
    && from <= to <= from + maxAttempts
    && (if ok then to > from && publisher(to - 1).Acknowledged? && !Acked(publisher, from, to - 1)
        else to == from + maxAttempts && !Acked(publisher, from, to))
  }

  /** The number of the call after the attempts for one row. */
  function RowEnd(publisher: nat -> Attempt, from: nat, maxAttempts: nat): nat
    decreases maxAttempts
  {
    if maxAttempts == 0 then from
    else if publisher(from).Acknowledged? then from + 1
    else RowEnd(publisher, from + 1, maxAttempts - 1)
  }

  /** A row is published exactly if one of its attempts would be acknowledged. */
  lemma {:induction false} TriedMeans(publisher: nat -> Attempt, from: nat, to: nat, maxAttempts: nat, ok: bool)
    requires Tried(publisher, from, to, maxAttempts, ok)
    ensures ok <==> Acked(publisher, from, from + maxAttempts)
    ensures to == RowEnd(publisher, from, maxAttempts)
    decreases maxAttempts
  {
    if maxAttempts > 0 && !publisher(from).Acknowledged? {
      TriedMeans(publisher, from + 1, to, maxAttempts - 1, ok);
    }
  }

  /** The number of the call after i rows. */
  function CallsAfter(publisher: nat -> Attempt, from: nat, maxAttempts: nat, i: nat): nat {
    if i == 0 then from else RowEnd(publisher, CallsAfter(publisher, from, maxAttempts, i - 1), maxAttempts)
  }

  predicate RowAcked(publisher: nat -> Attempt, from: nat, maxAttempts: nat, i: nat) {
    var c := CallsAfter(publisher, from, maxAttempts, i);
    Acked(publisher, c, c + maxAttempts)
  }

  /** How many of the first i rows are acknowledged. */
  function AckedRows(publisher: nat -> Attempt, from: nat, maxAttempts: nat, i: nat): nat {
    if i == 0 then 0
    else
      AckedRows(publisher, from, maxAttempts, i - 1) + if RowAcked(publisher, from, maxAttempts, i - 1) then 1 else 0
  }

  /** How often the message of each of the first i rows is stored. */
  function Stored(publisher: nat -> Attempt, from: nat, maxAttempts: nat, i: nat): seq<nat> {
    if i == 0 then []
    else
      var c := CallsAfter(publisher, from, maxAttempts, i - 1);
      var end := RowEnd(publisher, c, maxAttempts);
      Stored(publisher, from, maxAttempts, i - 1) + [if c <= end then Reaching(publisher, c, end) else 0]
  }

  /** What is dead-lettered of the first i rows: those that no attempt got acknowledged. */
  ghost function Unacked(publisher: nat -> Attempt, from: nat, maxAttempts: nat, rows: map<Uuid, Row>, batch: seq<Uuid>,
                         i: nat): seq<DlqRow>
    requires i <= |batch| && AllIn(rows, batch)
  {
    if i == 0 || maxAttempts == 0 then []
    else
      var id := batch[i - 1];
      Unacked(publisher, from, maxAttempts, rows, batch, i - 1)
      + if RowAcked(publisher, from, maxAttempts, i - 1) then [] else [DlqRow(id, rows[id].event, false)]
  }

  ghost function RowsOf(dead: DlqInserts): seq<DlqRow> {
    if dead == [] then [] else RowsOf(dead[..|dead| - 1]) + [dead[|dead| - 1].1]
  }

  /** The loop's variables after i rows are what the publisher's answers make them. */
  ghost predicate Answered(publisher: nat -> Attempt, from: nat, maxAttempts: nat, rows: map<Uuid, Row>,
                           batch: seq<Uuid>,
                           i: nat, calls: nat, n: nat, sent: seq<nat>, dead: DlqInserts)
    requires i <= |batch| && AllIn(rows, batch)
  {
    && calls == CallsAfter(publisher, from, maxAttempts, i)
    && n == AckedRows(publisher, from, maxAttempts, i)
    && sent == Stored(publisher, from, maxAttempts, i)
    && RowsOf(dead) == Unacked(publisher, from, maxAttempts, rows, batch, i)
  }

  lemma {:induction false} AnsweredStart(publisher: nat -> Attempt, from: nat, maxAttempts: nat, rows: map<Uuid, Row>,
                                         batch: seq<Uuid>)
    requires AllIn(rows, batch)
    ensures Answered(publisher, from, maxAttempts, rows, batch, 0, from, 0, [], [])
  {
  }

  lemma {:induction false} AnsweredPass(publisher: nat -> Attempt, from: nat, rows: map<Uuid, Row>, batch: seq<Uuid>,
                                        i: nat, calls: nat, n: nat, sent: seq<nat>, dead: DlqInserts)
    requires i < |batch| && AllIn(rows, batch)
    requires Answered(publisher, from, 0, rows, batch, i, calls, n, sent, dead)
    ensures Answered(publisher, from, 0, rows, batch, i + 1, calls, n, sent + [0], dead)
  {
  }

  lemma {:induction false} RowsOfMore(dead: DlqInserts, id: Uuid, row: DlqRow)
    ensures RowsOf(dead + [(id, row)]) == RowsOf(dead) + [row]
  {
    assert (dead + [(id, row)])[..|dead|] == dead;
  }

  lemma {:induction false} AnsweredRow(publisher: nat -> Attempt, from: nat, maxAttempts: nat, rows: map<Uuid, Row>,
                                       batch: seq<Uuid>, i: nat, calls: nat, n: nat, sent: seq<nat>, dead: DlqInserts,
                                       to: nat, ok: bool, dlqId: Uuid)
    requires i < |batch| && AllIn(rows, batch) && maxAttempts > 0
    requires Answered(publisher, from, maxAttempts, rows, batch, i, calls, n, sent, dead)
    requires Tried(publisher, calls, to, maxAttempts, ok)
    ensures Answered(publisher, from, maxAttempts, rows, batch, i + 1, to, if ok then n + 1 else n,
                     sent + [Reaching(publisher, calls, to)],
                     if ok then dead else dead + [(dlqId, DlqRow(batch[i], rows[batch[i]].event, false))])
  {
    TriedMeans(publisher, calls, to, maxAttempts, ok);
    RowsOfMore(dead, dlqId, DlqRow(batch[i], rows[batch[i]].event, false));
  }

  lemma {:induction false} ReachingBounds(publisher: nat -> Attempt, from: nat, to: nat)
    requires from <= to
    ensures Reaching(publisher, from, to) <= to - from
    ensures Acked(publisher, from, to) ==> Reaching(publisher, from, to) > 0
  {
    if from < to {
      ReachingBounds(publisher, from, to - 1);
    }
  }

  lemma {:induction false} RowEndBounds(publisher: nat -> Attempt, from: nat, maxAttempts: nat)
    ensures var end := RowEnd(publisher, from, maxAttempts);
            && from <= end <= from + maxAttempts
            && (Acked(publisher, from, from + maxAttempts) ==> Acked(publisher, from, end))
    decreases maxAttempts
  {
    if maxAttempts > 0 && !publisher(from).Acknowledged? {
      RowEndBounds(publisher, from + 1, maxAttempts - 1);
    }
  }

  lemma {:induction false} StoredCounted(publisher: nat -> Attempt, from: nat, maxAttempts: nat, i: nat)
    ensures |Stored(publisher, from, maxAttempts, i)| == i
    ensures Counted(Stored(publisher, from, maxAttempts, i), AckedRows(publisher, from, maxAttempts, i), maxAttempts)
  {
    if i > 0 {
      var c := CallsAfter(publisher, from, maxAttempts, i - 1);
      StoredCounted(publisher, from, maxAttempts, i - 1);
      RowEndBounds(publisher, c, maxAttempts);
      ReachingBounds(publisher, c, RowEnd(publisher, c, maxAttempts));
      var before, n := Stored(publisher, from, maxAttempts, i - 1), AckedRows(publisher, from, maxAttempts, i - 1);
      var k := Reaching(publisher, c, RowEnd(publisher, c, maxAttempts));
      CountedMore(before, n, maxAttempts, k, RowAcked(publisher, from, maxAttempts, i - 1));
    }
  }

  /** Between n and all attempts reached the broker. */
  lemma {:induction false} AnsweredSize(publisher: nat -> Attempt, from: nat, maxAttempts: nat, rows: map<Uuid, Row>,
                                        batch: seq<Uuid>, i: nat, calls: nat, n: nat, sent: seq<nat>, dead: DlqInserts)
    requires i <= |batch| && AllIn(rows, batch)
    requires Answered(publisher, from, maxAttempts, rows, batch, i, calls, n, sent, dead)
    ensures |sent| == i && n <= |Sent(rows, batch, sent)| <= i * maxAttempts
  {
    StoredCounted(publisher, from, maxAttempts, i);
    SentSize(rows, batch, sent, maxAttempts);
  }

  // Two publishers

  lemma {:induction false} HealthyRow(publisher: nat -> Attempt, from: nat, maxAttempts: nat)
    requires maxAttempts > 0 && publisher(from).Acknowledged?
    ensures RowEnd(publisher, from, maxAttempts) == from + 1 && Reaching(publisher, from, from + 1) == 1
    ensures Acked(publisher, from, from + maxAttempts)
  {
    assert Reaching(publisher, from, from) == 0;
  }

  lemma {:induction false} OneEach(rows: map<Uuid, Row>, batch: seq<Uuid>, sent: seq<nat>)
    requires |sent| <= |batch| && AllIn(rows, batch) && forall k :: 0 <= k < |sent| ==> sent[k] == 1
    ensures |Sent(rows, batch, sent)| == |sent|
    ensures forall k :: 0 <= k < |sent| ==> Sent(rows, batch, sent)[k] == Message(rows, batch[k])
  {
    if sent != [] {
      var n := |sent| - 1;
      OneEach(rows, batch, sent[..n]);
      assert Copies(Message(rows, batch[n]), 0) == [];
      assert Copies(Message(rows, batch[n]), 1) == [Message(rows, batch[n])];
    }
  }

  lemma {:induction false} HealthyRows(publisher: nat -> Attempt, from: nat, maxAttempts: nat, i: nat)
    requires maxAttempts > 0 && forall c :: publisher(c).Acknowledged?
    ensures AckedRows(publisher, from, maxAttempts, i) == i && CallsAfter(publisher, from, maxAttempts, i) == from + i
    ensures var sent := Stored(publisher, from, maxAttempts, i); |sent| == i && forall k :: 0 <= k < i ==> sent[k] == 1
  {
    if i > 0 {
      HealthyRows(publisher, from, maxAttempts, i - 1);
      assert publisher(from + i - 1).Acknowledged?;
      HealthyRow(publisher, from + i - 1, maxAttempts);
    }
  }

  /** A publisher that acknowledges every call: every row is published at the first attempt and
      with one message (OneEach), and none is dead-lettered. */
  lemma {:induction false} HealthyPublisher(publisher: nat -> Attempt, from: nat, maxAttempts: nat, rows: map<Uuid,
                                            Row>,
                                            batch: seq<Uuid>, i: nat)
    requires maxAttempts > 0 && i <= |batch| && AllIn(rows, batch) && forall c :: publisher(c).Acknowledged?
    ensures AckedRows(publisher, from, maxAttempts, i) == i && CallsAfter(publisher, from, maxAttempts, i) == from + i
    ensures Unacked(publisher, from, maxAttempts, rows, batch, i) == []
    ensures var sent := Stored(publisher, from, maxAttempts, i); |sent| == i && forall k :: 0 <= k < i ==> sent[k] == 1
  {
    HealthyRows(publisher, from, maxAttempts, i);
    if i > 0 {
      HealthyPublisher(publisher, from, maxAttempts, rows, batch, i - 1);
      assert publisher(from + i - 1).Acknowledged?;
    }
  }

  lemma {:induction false} RefusedRow(publisher: nat -> Attempt, from: nat, maxAttempts: nat)
    requires forall c :: publisher(c).Rejected?
    ensures RowEnd(publisher, from, maxAttempts) == from + maxAttempts
    ensures !Acked(publisher, from, from + maxAttempts)
    decreases maxAttempts
  {
    if maxAttempts > 0 {
      assert publisher(from).Rejected?;
      RefusedRow(publisher, from + 1, maxAttempts - 1);
    }
  }

  lemma {:induction false} NothingReaches(publisher: nat -> Attempt, from: nat, to: nat)
    requires from <= to && forall c :: publisher(c).Rejected?
    ensures Reaching(publisher, from, to) == 0
  {
    if from < to {
      NothingReaches(publisher, from, to - 1);
      assert publisher(to - 1).Rejected?;
    }
  }

  lemma {:induction false} NoneSent(rows: map<Uuid, Row>, batch: seq<Uuid>, sent: seq<nat>)
    requires |sent| <= |batch| && AllIn(rows, batch) && forall k :: 0 <= k < |sent| ==> sent[k] == 0
    ensures Sent(rows, batch, sent) == []
  {
    if sent != [] {
      NoneSent(rows, batch, sent[..|sent| - 1]);
    }
  }

  lemma {:induction false} RefusedRows(publisher: nat -> Attempt, from: nat, maxAttempts: nat, i: nat)
    requires forall c :: publisher(c).Rejected?
    ensures AckedRows(publisher, from, maxAttempts, i) == 0
    ensures CallsAfter(publisher, from, maxAttempts, i) == from + i * maxAttempts
    ensures var sent := Stored(publisher, from, maxAttempts, i); |sent| == i && forall k :: 0 <= k < i ==> sent[k] == 0
  {
    if i > 0 {
      RefusedRows(publisher, from, maxAttempts, i - 1);
      var c := CallsAfter(publisher, from, maxAttempts, i - 1);
      RefusedRow(publisher, c, maxAttempts);
      NothingReaches(publisher, c, c + maxAttempts);
      TickCount(i - 1, maxAttempts);
    }
  }

  /** A publisher that refuses every call: nothing is sent (NoneSent), and every row is
      dead-lettered after all its attempts. */
  lemma {:induction false} RefusingPublisher(publisher: nat -> Attempt, from: nat, maxAttempts: nat, rows: map<Uuid,
                                             Row>,
                                             batch: seq<Uuid>, i: nat)
    requires maxAttempts > 0 && i <= |batch| && AllIn(rows, batch) && forall c :: publisher(c).Rejected?
    ensures AckedRows(publisher, from, maxAttempts, i) == 0
    ensures CallsAfter(publisher, from, maxAttempts, i) == from + i * maxAttempts
    ensures var sent := Stored(publisher, from, maxAttempts, i); |sent| == i && forall k :: 0 <= k < i ==> sent[k] == 0
    ensures var dead := Unacked(publisher, from, maxAttempts, rows, batch, i);
            |dead| == i && forall k :: 0 <= k < i ==> dead[k] == DlqRow(batch[k], rows[batch[k]].event, false)
  {
    RefusedRows(publisher, from, maxAttempts, i);
    if i > 0 {
      RefusingPublisher(publisher, from, maxAttempts, rows, batch, i - 1);
      RefusedRow(publisher, CallsAfter(publisher, from, maxAttempts, i - 1), maxAttempts);
    }
  }
}
