/**
 The relay as the program runs it: one caller at a time, updating the outbox table statement by
 statement (internal/modules/articleinspect/outbox/relay.go and cleanup.go), without database errors.
 */
module Relay {
  import opened Common
  import opened Outbox
  import Query
  import Protocol

  datatype Outcome =
    | Done
    | InvalidInput
    | NoDispatcher
    | NotFound
    | HandOffFailed(code: ErrorCode)

  datatype Report = Report(scanned: nat, claimed: nat, dispatched: nat, retried: nat, deadLettered: nat, failed: nat)

  /** The effect of one undisturbed DispatchMessage call on its row. */
  function DispatchRow(cfg: Settings, row: Row, now: Time, reply: Verdict): Row {
    if !IsDispatchable(row, now) then row
    else
      var claimed := ClaimWrite(cfg, row, now);
      CompletionWrite(cfg, claimed, now, HandOffVerdict(claimed, reply), claimed)
  }

  /** How one attempt on a dispatchable row ends, in terms of the message and the queue's answer: a message
      that does not decode, or of another type, is dead-lettered by its first attempt; a refused one waits for
      its backoff until its attempts are used up; only an accepted one is dispatched. */
  ghost predicate Ending(cfg: Settings, row: Row, now: Time, reply: Verdict, after: Row) {
    && (after.status.DeadLetter? <==>
          row.payload.None? || !row.supported || (reply.Failed? && 0 < cfg.maxAttempts <= row.attempts + 1))
    && (after.status.Dispatched? <==> row.payload.Some? && row.supported && reply.Accepted?)
    && !after.status.Claimed?
    && after.errorCode == (if row.payload.None? then PayloadDecode
                           else if !row.supported then UnsupportedMessage
                           else if reply.Accepted? then NoError
                           else reply.code)
    && SameMessage(after, row) && after.attempts == row.attempts + 1 && after.lastAttemptAt == Some(now)
    && (after.status.Pending? ==> forall t :: IsDispatchable(after, t) <==> t >= now + Backoff(after.attempts))
    && (after.status.Dispatched? ==> forall t :: Protocol.Expired(after, t) <==> t > now + cfg.dispatchedRetention)
    && (after.status.DeadLetter? ==> forall t :: Protocol.Expired(after, t) <==> t > now + cfg.deadLetterRetention)
  }

  lemma AttemptEnds(cfg: Settings, row: Row, now: Time, reply: Verdict)
    requires IsDispatchable(row, now) && QueueReply(reply)
    ensures Ending(cfg, row, now, reply, DispatchRow(cfg, row, now, reply))
  {
  }

  /** What a call reports: nothing to do and a message taken over by the queue are both fine. */
  predicate Reported(row: Row, now: Time, reply: Verdict, outcome: Outcome) {
    if !IsDispatchable(row, now) then outcome.Done?
    else if row.payload.None? then outcome == HandOffFailed(PayloadDecode)
    else if !row.supported then outcome == HandOffFailed(UnsupportedMessage)
    else if reply.Failed? then outcome == HandOffFailed(reply.code)
    else outcome.Done?
  }

  /** An undisturbed call is one of the runs of the step system, with just this effect. */
  lemma DispatchIsARun(cfg: Settings, ss: seq<Protocol.System>, acts: seq<Protocol.Action>, c: Id, id: Id, now: Time, reply: Verdict)
      returns (ss': seq<Protocol.System>, acts': seq<Protocol.Action>)
    requires Protocol.IsRun(cfg, ss, acts) && QueueReply(reply)
    requires c !in Protocol.Last(ss).attempts && id in Protocol.Last(ss).rows
    ensures Protocol.IsRun(cfg, ss', acts') && ss <= ss'
    ensures
      var before, after := Protocol.Last(ss), Protocol.Last(ss');
      after.rows == before.rows[id := DispatchRow(cfg, before.rows[id], now, reply)] && after.attempts == before.attempts
  {
    var before := Protocol.Last(ss);
    if IsDispatchable(before.rows[id], now) {
      ss', acts' := Protocol.SoloClaim(cfg, ss, acts, c, id, now);
      ss', acts' := Protocol.SoloComplete(cfg, ss', acts', c, reply);
      assert Protocol.Last(ss').attempts == before.attempts;
    } else {
      ss', acts' := Protocol.SoloIdle(cfg, ss, acts, c, id, now);
    }
    assert Protocol.Last(ss').rows == before.rows[id := DispatchRow(cfg, before.rows[id], now, reply)];
  }

  /** The candidates of the batch query with their sort key. */
  function Dispatchable(rows: map<Id, Row>, now: Time): map<Id, int> {
    map id | id in rows && IsDispatchable(rows[id], now) :: rows[id].attempts
  }

  function Expired(rows: map<Id, Row>, now: Time): map<Id, int> {
    map id | id in rows && Protocol.Expired(rows[id], now) :: rows[id].retainedUntil.value
  }

  /** Fewer attempts first, then the smaller id. */
  predicate Earlier(rows: map<Id, Row>, a: Id, b: Id)
    requires a in rows && b in rows
  {
    rows[a].attempts < rows[b].attempts || (rows[a].attempts == rows[b].attempts && a < b)
  }

  predicate DueIn(rows: map<Id, Row>, now: Time, id: Id) {
    id in rows && IsDispatchable(rows[id], now)
  }

  /** What the batch query of DispatchPending returns, read off the table itself: due rows in strictly ascending
      order of (attempt_count, id), none left out that comes before a listed one, and as many as there are up
      to the limit. */
  ghost predicate PicksEarliest(rows: map<Id, Row>, now: Time, limit: nat, items: seq<Id>) {
    && (forall k | 0 <= k < |items| :: DueIn(rows, now, items[k]))
    && (forall i, j | 0 <= i < j < |items| :: Earlier(rows, items[i], items[j]))
    && (forall i, id | 0 <= i < |items| && DueIn(rows, now, id) && id !in items :: Earlier(rows, items[i], id))
    && |items| == AtMost(limit, |set id | id in rows && IsDispatchable(rows[id], now)|)
  }

  function AtMost(limit: nat, n: nat): nat {
    if n <= limit then n else limit
  }

  lemma FirstIsEarliest(rows: map<Id, Row>, now: Time, limit: nat, items: seq<Id>)
    requires Query.IsFirst(Dispatchable(rows, now), limit, items)
    ensures PicksEarliest(rows, now, limit, items)
  {
    var key := Dispatchable(rows, now);
    assert key.Keys == set id | id in rows && IsDispatchable(rows[id], now);
    forall i, id | 0 <= i < |items| && DueIn(rows, now, id) && id !in items ensures Earlier(rows, items[i], id) {
      assert id in key && Query.Before(key, items[i], id);
    }
    forall i, j | 0 <= i < j < |items| ensures Earlier(rows, items[i], items[j]) {
      assert Query.Before(key, items[i], items[j]);
    }
  }

  predicate PastRetention(row: Row, now: Time) {
    Terminal(row) && row.retainedUntil.Some? && row.retainedUntil.value < now
  }

  /** What cleanup selects, read off the table: terminal rows past their retention, those kept longest past it
      first. */
  ghost predicate PicksOldest(rows: map<Id, Row>, now: Time, limit: nat, items: seq<Id>) {
    && (forall k | 0 <= k < |items| :: items[k] in rows && PastRetention(rows[items[k]], now))
    && (forall i, j | 0 <= i < j < |items| :: Older(rows, items[i], items[j]))
    && (forall i, id | 0 <= i < |items| && id in rows && PastRetention(rows[id], now) && id !in items :: Older(rows, items[i], id))
    && |items| == AtMost(limit, |set id | id in rows && PastRetention(rows[id], now)|)
  }

  predicate Older(rows: map<Id, Row>, a: Id, b: Id)
    requires a in rows && b in rows
  {
    && rows[a].retainedUntil.Some? && rows[b].retainedUntil.Some?
    && (rows[a].retainedUntil.value < rows[b].retainedUntil.value
        || (rows[a].retainedUntil == rows[b].retainedUntil && a < b))
  }

  lemma FirstIsOldest(rows: map<Id, Row>, now: Time, limit: nat, items: seq<Id>)
    requires Query.IsFirst(Expired(rows, now), limit, items)
    ensures PicksOldest(rows, now, limit, items)
  {
    var key := Expired(rows, now);
    assert key.Keys == set id | id in rows && PastRetention(rows[id], now);
    forall i, id | 0 <= i < |items| && id in rows && PastRetention(rows[id], now) && id !in items ensures Older(rows, items[i], id) {
      assert id in key && Query.Before(key, items[i], id);
    }
    forall i, j | 0 <= i < j < |items| ensures Older(rows, items[i], items[j]) {
      assert Query.Before(key, items[i], items[j]);
    }
  }

  /** What one DispatchPending call saw: its query reading and answer, and for its k-th message the
      reading of the clock and the reply of the queue. */
  datatype Pass = Pass(now: Time, limit: nat, items: seq<Id>, clock: nat -> Time, reply: nat -> Verdict)
  {
    ghost predicate Sane() {
      && (forall k :: now <= clock(k))
      && (forall k :: QueueReply(reply(k)))
    }
  }

  /** How many of the first n messages of a pass ended in a status. */
  ghost function Tally(rows: map<Id, Row>, items: seq<Id>, status: Status, n: nat): nat
    requires n <= |items| && InTable(rows, items)
  {
    if n == 0 then 0 else Tally(rows, items, status, n - 1) + if rows[items[n - 1]].status == status then 1 else 0
  }

  /** A row picked by the query is still dispatchable when its turn comes. */
  lemma StillDispatchable(row: Row, now: Time, later: Time)
    requires IsDispatchable(row, now) && now <= later
    ensures IsDispatchable(row, later)
  {
  }

  ghost predicate InTable(rows: map<Id, Row>, items: seq<Id>) {
    forall k | 0 <= k < |items| :: items[k] in rows
  }

  /** The state of a pass after its first i messages. */
  ghost predicate PassSoFar(cfg: Settings, before: map<Id, Row>, rows: map<Id, Row>, p: Pass, i: nat) {
    && i <= |p.items|
    && InTable(before, p.items)
    && rows.Keys == before.Keys
    && (forall k | 0 <= k < i :: rows[p.items[k]] == DispatchRow(cfg, before[p.items[k]], p.clock(k), p.reply(k)))
    && (forall k | i <= k < |p.items| :: rows[p.items[k]] == before[p.items[k]])
    && (forall id | id in before && id !in p.items :: rows[id] == before[id])
  }

  /** The effect of a pass on the table: the first `limit` dispatchable rows by (attempt_count, id) each
      get one attempt, and no other row is touched. */
  ghost predicate IsPass(cfg: Settings, rows: map<Id, Row>, rows': map<Id, Row>, p: Pass) {
    && Query.IsFirst(Dispatchable(rows, p.now), p.limit, p.items)
    && PassSoFar(cfg, rows, rows', p, |p.items|)
  }

  lemma PassBegins(cfg: Settings, rows: map<Id, Row>, p: Pass)
    requires Query.Ordered(Dispatchable(rows, p.now), p.items)
    ensures PassSoFar(cfg, rows, rows, p, 0)
  {
    forall k | 0 <= k < |p.items| ensures p.items[k] in rows {
      assert p.items[k] in Dispatchable(rows, p.now);
    }
  }

  lemma NextIsDispatchable(cfg: Settings, before: map<Id, Row>, rows: map<Id, Row>, p: Pass, i: nat)
    requires PassSoFar(cfg, before, rows, p, i) && i < |p.items| && p.Sane()
    requires Query.IsFirst(Dispatchable(before, p.now), p.limit, p.items) && 0 !in before
    ensures p.items[i] in rows && rows[p.items[i]] == before[p.items[i]] && p.items[i] != 0
    ensures IsDispatchable(rows[p.items[i]], p.clock(i))
  {
    assert p.items[i] in Dispatchable(before, p.now);
    StillDispatchable(before[p.items[i]], p.now, p.clock(i));
  }

  lemma PassExtends(cfg: Settings, before: map<Id, Row>, rows: map<Id, Row>, rows': map<Id, Row>, p: Pass, i: nat)
    requires PassSoFar(cfg, before, rows, p, i) && i < |p.items|
    requires Query.Ordered(Dispatchable(before, p.now), p.items)
    requires rows' == rows[p.items[i] := DispatchRow(cfg, before[p.items[i]], p.clock(i), p.reply(i))]
    ensures PassSoFar(cfg, before, rows', p, i + 1)
    ensures forall k | 0 <= k < i :: rows'[p.items[k]] == rows[p.items[k]]
  {
    DistinctItems(Dispatchable(before, p.now), p.items);
    forall k | 0 <= k < |p.items| && k != i ensures rows'[p.items[k]] == rows[p.items[k]] {
      assert p.items[k] != p.items[i];
    }
  }

  /** Every message of a pass ends as one attempt on it does, at the reading and with the answer it got. */
  ghost predicate AllEnd(cfg: Settings, before: map<Id, Row>, rows: map<Id, Row>, p: Pass) {
    forall k | 0 <= k < |p.items| ::
      p.items[k] in before && p.items[k] in rows && Ending(cfg, before[p.items[k]], p.clock(k), p.reply(k), rows[p.items[k]])
  }

  lemma PassEnds(cfg: Settings, before: map<Id, Row>, rows: map<Id, Row>, p: Pass)
    requires IsPass(cfg, before, rows, p) && p.Sane()
    ensures AllEnd(cfg, before, rows, p)
  {
    forall k | 0 <= k < |p.items|
      ensures p.items[k] in before && p.items[k] in rows && Ending(cfg, before[p.items[k]], p.clock(k), p.reply(k), rows[p.items[k]])
    {
      assert p.items[k] in Dispatchable(before, p.now);
      StillDispatchable(before[p.items[k]], p.now, p.clock(k));
      AttemptEnds(cfg, before[p.items[k]], p.clock(k), p.reply(k));
    }
  }

  lemma DistinctItems(key: map<Id, int>, items: seq<Id>)
    requires Query.Ordered(key, items)
    ensures forall j, k | 0 <= j < |items| && 0 <= k < |items| && j != k :: items[j] != items[k]
  {
  }

  ghost predicate Counted(report: Report, rows: map<Id, Row>, items: seq<Id>, n: nat)
    requires n <= |items| && InTable(rows, items)
  {
    && report.dispatched == Tally(rows, items, Dispatched, n)
    && report.retried == Tally(rows, items, Pending, n)
    && report.deadLettered == Tally(rows, items, DeadLetter, n)
  }

  /** The report of a pass over n messages after i of them. */
  predicate Balanced(report: Report, n: nat, i: nat) {
    && report.scanned == n
    && report.claimed == i
    && report.dispatched + report.retried + report.deadLettered == i
    && report.failed == report.retried + report.deadLettered
  }

  /** The report once one more message has been claimed and ended in `status`. */
  function AddEnding(so: Report, status: Status): Report {
    Report(so.scanned,
           so.claimed + 1,
           so.dispatched + (if status.Dispatched? then 1 else 0),
           so.retried + (if status.Pending? then 1 else 0),
           so.deadLettered + (if status.DeadLetter? then 1 else 0),
           so.failed + (if status.Dispatched? then 0 else 1))
  }

  lemma CountedExtends(so: Report, rows: map<Id, Row>, rows': map<Id, Row>, items: seq<Id>, i: nat)
    requires i < |items| && rows'.Keys == rows.Keys && InTable(rows, items) && Counted(so, rows, items, i)
    requires forall k | 0 <= k < i :: rows'[items[k]] == rows[items[k]]
    ensures InTable(rows', items) && Counted(AddEnding(so, rows'[items[i]].status), rows', items, i + 1)
  {
    TallyFrame(rows, rows', items, i);
  }

  /** Table and report after the first i rounds of the DispatchPending loop. */
  ghost predicate RoundsDone(cfg: Settings, before: map<Id, Row>, rows: map<Id, Row>, p: Pass, i: nat, report: Report) {
    && PassSoFar(cfg, before, rows, p, i) && InTable(rows, p.items)
    && Balanced(report, |p.items|, i) && Counted(report, rows, p.items, i)
  }

  lemma RoundStep(cfg: Settings, before: map<Id, Row>, rows: map<Id, Row>, rows': map<Id, Row>, p: Pass, i: nat, so: Report)
    requires RoundsDone(cfg, before, rows, p, i, so) && i < |p.items|
    requires Query.Ordered(Dispatchable(before, p.now), p.items)
    requires rows' == rows[p.items[i] := DispatchRow(cfg, before[p.items[i]], p.clock(i), p.reply(i))]
    requires !rows'[p.items[i]].status.Claimed?
    ensures RoundsDone(cfg, before, rows', p, i + 1, AddEnding(so, rows'[p.items[i]].status))
  {
    PassExtends(cfg, before, rows, rows', p, i);
    CountedExtends(so, rows, rows', p.items, i);
    BalancedExtends(so, |p.items|, i, rows'[p.items[i]].status);
  }

  lemma BalancedExtends(so: Report, n: nat, i: nat, status: Status)
    requires Balanced(so, n, i) && !status.Claimed?
    ensures Balanced(AddEnding(so, status), n, i + 1)
  {
  }

  /** The first i messages of a pass, one undisturbed call after the other, are a run. */
  lemma {:induction false} PassPrefixIsARun(cfg: Settings, ss: seq<Protocol.System>, acts: seq<Protocol.Action>, c: Id, p: Pass, i: nat)
      returns (ss': seq<Protocol.System>, acts': seq<Protocol.Action>)
    requires Protocol.IsRun(cfg, ss, acts) && c !in Protocol.Last(ss).attempts && p.Sane() && i <= |p.items|
    requires Query.Ordered(Dispatchable(Protocol.Last(ss).rows, p.now), p.items)
    ensures Protocol.IsRun(cfg, ss', acts') && ss <= ss'
    ensures Protocol.Last(ss').attempts == Protocol.Last(ss).attempts
    ensures PassSoFar(cfg, Protocol.Last(ss).rows, Protocol.Last(ss').rows, p, i)
  {
    if i == 0 {
      ss', acts' := ss, acts;
      PassBegins(cfg, Protocol.Last(ss).rows, p);
    } else {
      var ss1, acts1 := PassPrefixIsARun(cfg, ss, acts, c, p, i - 1);
      ss', acts' := DispatchIsARun(cfg, ss1, acts1, c, p.items[i - 1], p.clock(i - 1), p.reply(i - 1));
      PassExtends(cfg, Protocol.Last(ss).rows, Protocol.Last(ss1).rows, Protocol.Last(ss').rows, p, i - 1);
    }
  }

  lemma PassIsDetermined(cfg: Settings, before: map<Id, Row>, a: map<Id, Row>, b: map<Id, Row>, p: Pass)
    requires PassSoFar(cfg, before, a, p, |p.items|) && PassSoFar(cfg, before, b, p, |p.items|)
    ensures a == b
  {
    forall id | id in a ensures id in b && a[id] == b[id] {
      if id in p.items {
        var k :| 0 <= k < |p.items| && p.items[k] == id;
      }
    }
  }

  /** A whole DispatchPending pass is a run of the step system that ends in just the table the pass leaves,
      so everything proved of runs holds of it. */
  lemma PassIsARun(cfg: Settings, ss: seq<Protocol.System>, acts: seq<Protocol.Action>, c: Id, rows: map<Id, Row>, p: Pass)
      returns (ss': seq<Protocol.System>, acts': seq<Protocol.Action>)
    requires Protocol.IsRun(cfg, ss, acts) && c !in Protocol.Last(ss).attempts && p.Sane()
    requires IsPass(cfg, Protocol.Last(ss).rows, rows, p)
    ensures Protocol.IsRun(cfg, ss', acts') && ss <= ss'
    ensures Protocol.Last(ss').attempts == Protocol.Last(ss).attempts && Protocol.Last(ss').rows == rows
  {
    ss', acts' := PassPrefixIsARun(cfg, ss, acts, c, p, |p.items|);
    PassIsDetermined(cfg, Protocol.Last(ss).rows, rows, Protocol.Last(ss').rows, p);
  }

  /** A row as a winning claim leaves it: the same message with its attempts, out of reach of others until the
      lease has passed. */
  ghost predicate Leased(before: Row, after: Row, now: Time, lease: Time) {
    && SameMessage(after, before) && after.attempts == before.attempts
    && after.status.Claimed? && after.claimedAt == Some(now) && after.claimUntil == Some(now + lease)
    && after.retainedUntil == before.retainedUntil
    && forall t :: IsDispatchable(after, t) <==> t > now + lease
  }

  class OutboxRelay {
    const settings: Settings
    const hasDispatcher: bool
    var rows: map<Id, Row>
    var accepted: set<Payload>

    constructor (settings: Settings, hasDispatcher: bool, rows: map<Id, Row>)
      ensures this.settings == settings && this.hasDispatcher == hasDispatcher
      ensures this.rows == rows && this.accepted == {}
    {
      this.settings, this.hasDispatcher := settings, hasDispatcher;
      this.rows, this.accepted := rows, {};
    }

    /** claimMessage: the conditional update that carries the lease. */
    method ClaimMessage(id: Id, message: Row, now: Time) returns (claimed: bool, copy: Row)
      modifies `rows
      ensures claimed <==>
        && IsDispatchable(message, now)
        && id in old(rows) && old(rows)[id].status == message.status && IsDispatchable(old(rows)[id], now)
      ensures rows.Keys == old(rows).Keys && forall k | k in rows && k != id :: rows[k] == old(rows)[k]
      ensures claimed ==> Leased(old(rows)[id], rows[id], now, settings.lease) && Leased(message, copy, now, settings.lease)
      ensures claimed ==> rows == old(rows)[id := ClaimWrite(settings, old(rows)[id], now)] && copy == ClaimWrite(settings, message, now)
      ensures !claimed ==> rows == old(rows) && copy == message
    {
      claimed, copy := false, message;
      if !IsDispatchable(message, now) {
        return;
      }
      if id in rows && ClaimMatches(message, rows[id], now) {
        rows := rows[id := rows[id].(status := Claimed, claimedAt := Some(now), claimUntil := Some(now + settings.lease))];
        claimed := true;
        copy := message.(status := Claimed, claimedAt := Some(now), claimUntil := Some(now + settings.lease));
      }
    }

    /** markDispatched: the row is out of reach of every later claim, and cleanup may take it once the
        retention has passed. */
    method MarkDispatched(id: Id, msg: Row, now: Time)
      modifies `rows
      ensures rows.Keys == old(rows).Keys && forall k | k in rows && k != id :: rows[k] == old(rows)[k]
      ensures id in rows ==> SameMessage(rows[id], old(rows)[id]) && rows[id].attempts == msg.attempts + 1
      ensures id in rows ==> rows[id].status.Dispatched? && forall t :: !IsDispatchable(rows[id], t)
      ensures id in rows ==> rows[id].dispatchedAt == Some(now) && rows[id].deadLetteredAt == None && rows[id].errorCode.NoError?
      ensures id in rows ==> forall t :: Protocol.Expired(rows[id], t) <==> t > now + settings.dispatchedRetention
      ensures rows == if id in old(rows) then old(rows)[id := DispatchedWrite(settings, msg, now, old(rows)[id])] else old(rows)
    {
      if id in rows {
        rows := rows[id := DispatchedWrite(settings, msg, now, rows[id])];
      }
    }

    /** scheduleRetry: the row waits for the backoff of the attempt and no longer; cleanup leaves it alone. */
    method ScheduleRetry(id: Id, msg: Row, now: Time, code: ErrorCode)
      modifies `rows
      ensures rows.Keys == old(rows).Keys && forall k | k in rows && k != id :: rows[k] == old(rows)[k]
      ensures id in rows ==> SameMessage(rows[id], old(rows)[id]) && rows[id].attempts == msg.attempts + 1
      ensures id in rows ==> forall t :: IsDispatchable(rows[id], t) <==> t >= now + Backoff(msg.attempts + 1)
      ensures id in rows ==> forall t :: !Protocol.Expired(rows[id], t)
      ensures id in rows ==> rows[id].retainedUntil == old(rows)[id].retainedUntil && rows[id].dispatchedAt == old(rows)[id].dispatchedAt
      ensures id in rows ==> rows[id].status.Pending? && rows[id].errorCode == code && rows[id].deadLetteredAt == None
      ensures rows == if id in old(rows) then old(rows)[id := RetryWrite(msg, now, code, old(rows)[id])] else old(rows)
    {
      if id in rows {
        rows := rows[id := RetryWrite(msg, now, code, rows[id])];
      }
    }

    /** moveToDeadLetter: as markDispatched, with the error code and the longer retention. */
    method MoveToDeadLetter(id: Id, msg: Row, now: Time, code: ErrorCode)
      modifies `rows
      ensures rows.Keys == old(rows).Keys && forall k | k in rows && k != id :: rows[k] == old(rows)[k]
      ensures id in rows ==> SameMessage(rows[id], old(rows)[id]) && rows[id].attempts == msg.attempts + 1
      ensures id in rows ==> rows[id].status.DeadLetter? && rows[id].errorCode == code && forall t :: !IsDispatchable(rows[id], t)
      ensures id in rows ==> rows[id].deadLetteredAt == Some(now) && rows[id].dispatchedAt == old(rows)[id].dispatchedAt
      ensures id in rows ==> forall t :: Protocol.Expired(rows[id], t) <==> t > now + settings.deadLetterRetention
      ensures rows == if id in old(rows) then old(rows)[id := DeadLetterWrite(settings, msg, now, code, old(rows)[id])] else old(rows)
    {
      if id in rows {
        rows := rows[id := DeadLetterWrite(settings, msg, now, code, rows[id])];
      }
    }

    /** DispatchMessage. `reply` is what the queue will answer if it is called. */
    method DispatchMessage(id: Id, now: Time, reply: Verdict) returns (outcome: Outcome)
      requires QueueReply(reply)
      modifies this
      ensures id == 0 || !hasDispatcher || id !in old(rows) ==>
        && rows == old(rows) && accepted == old(accepted)
        && outcome == if id == 0 then InvalidInput else if !hasDispatcher then NoDispatcher else NotFound
      ensures id != 0 && hasDispatcher && id in old(rows) ==>
        var row := old(rows)[id];
        && rows == old(rows)[id := DispatchRow(settings, row, now, reply)]
        && (if IsDispatchable(row, now) then Ending(settings, row, now, reply, rows[id]) else rows[id] == row)
        && Reported(row, now, reply, outcome)
        && accepted == old(accepted) + (if IsDispatchable(row, now) && rows[id].status.Dispatched? then {row.payload.value} else {})
    {
      if id == 0 {
        return InvalidInput;
      }
      if !hasDispatcher {
        return NoDispatcher;
      }
      if id !in rows {
        return NotFound;
      }
      var message := rows[id];
      if !IsDispatchable(message, now) {
        assert rows == rows[id := message];
        return Done;
      }
      AttemptEnds(settings, message, now, reply);
      var claimed, msg := ClaimMessage(id, message, now);
      if !claimed {
        return Done;
      }
      if msg.payload.None? {
        MoveToDeadLetter(id, msg, now, PayloadDecode);
        return HandOffFailed(PayloadDecode);
      }
      if !msg.supported {
        MoveToDeadLetter(id, msg, now, UnsupportedMessage);
        return HandOffFailed(UnsupportedMessage);
      }
      match reply {
        case Failed(code) =>
          if ShouldDeadLetter(settings, msg, code) {
            MoveToDeadLetter(id, msg, now, code);
          } else {
            ScheduleRetry(id, msg, now, code);
          }
          return HandOffFailed(code);
        case Accepted =>
          accepted := accepted + {msg.payload.value};
          MarkDispatched(id, msg, now);
          return Done;
      }
    }

    /** One round of the DispatchPending loop: dispatch a message, read it back, update the report. A row
        that is dispatchable is counted as claimed and under exactly one of the three endings. */
    method DispatchCounted(id: Id, now: Time, reply: Verdict, so: Report) returns (report: Report)
      requires QueueReply(reply) && hasDispatcher && id != 0 && id in rows && IsDispatchable(rows[id], now)
      modifies this
      ensures rows == old(rows)[id := DispatchRow(settings, old(rows)[id], now, reply)]
      ensures report == AddEnding(so, rows[id].status)
      ensures !rows[id].status.Claimed?
    {
      report := so;
      var attempts, status := rows[id].attempts, rows[id].status;
      var outcome := DispatchMessage(id, now, reply);
      if !outcome.Done? {
        report := report.(failed := report.failed + 1);
      }
      var updated := rows[id];
      if updated.attempts > attempts {
        report := report.(claimed := report.claimed + 1);
      }
      match updated.status {
        case Dispatched => report := report.(dispatched := report.dispatched + 1);
        case Pending =>
          if updated.attempts > attempts || status.Claimed? {
            report := report.(retried := report.retried + 1);
          }
        case DeadLetter => report := report.(deadLettered := report.deadLettered + 1);
        case Claimed =>
      }
    }

    /** Round i of the loop over the messages of a pass. */
    method DispatchRound(p: Pass, i: nat, so: Report, ghost before: map<Id, Row>) returns (report: Report)
      requires hasDispatcher && 0 !in before && p.Sane() && Query.IsFirst(Dispatchable(before, p.now), p.limit, p.items)
      requires RoundsDone(settings, before, rows, p, i, so) && i < |p.items|
      modifies this
      ensures RoundsDone(settings, before, rows, p, i + 1, report)
    {
      ghost var earlier := rows;
      NextIsDispatchable(settings, before, rows, p, i);
      report := DispatchCounted(p.items[i], p.clock(i), p.reply(i), so);
      RoundStep(settings, before, earlier, rows, p, i, so);
    }

    /** The loop of DispatchPending over the messages its query returned. */
    method DispatchItems(p: Pass) returns (report: Report)
      requires hasDispatcher && 0 !in rows && p.Sane() && Query.IsFirst(Dispatchable(rows, p.now), p.limit, p.items)
      modifies this
      ensures PassSoFar(settings, old(rows), rows, p, |p.items|) && InTable(rows, p.items)
      ensures Balanced(report, |p.items|, |p.items|) && Counted(report, rows, p.items, |p.items|)
    {
      report := Report(|p.items|, 0, 0, 0, 0, 0);
      ghost var before := rows;
      PassBegins(settings, rows, p);
      for i := 0 to |p.items|
        invariant RoundsDone(settings, before, rows, p, i, report)
      {
        report := DispatchRound(p, i, report, before);
      }
    }

    /** DispatchPending: one batch of at most `limit` messages (20 when the caller gives none). The pass is
        recorded in `pass`; the counters of the report tell what happened to the rows. */
    method DispatchPending(limit: int, now: Time, clock: nat -> Time, reply: nat -> Verdict)
        returns (ok: bool, report: Report, pass: Pass)
      requires 0 !in rows
      requires forall k :: now <= clock(k)
      requires forall k :: QueueReply(reply(k))
      modifies this
      ensures ok == hasDispatcher
      ensures !ok ==> rows == old(rows) && report == Report(0, 0, 0, 0, 0, 0)
      ensures pass == Pass(now, if limit <= 0 then 20 else limit, pass.items, clock, reply) && pass.Sane()
      ensures ok ==> IsPass(settings, old(rows), rows, pass) && InTable(rows, pass.items)
      ensures ok ==> PicksEarliest(old(rows), now, pass.limit, pass.items)
      ensures ok ==> AllEnd(settings, old(rows), rows, pass)
      ensures ok ==> report.scanned == |pass.items|
      ensures report.claimed == report.scanned
      ensures report.scanned == report.dispatched + report.retried + report.deadLettered
      ensures report.failed == report.retried + report.deadLettered
      ensures ok ==> Counted(report, rows, pass.items, |pass.items|)
    {
      var size := if limit <= 0 then 20 else limit;
      ok, pass, report := hasDispatcher, Pass(now, size, [], clock, reply), Report(0, 0, 0, 0, 0, 0);
      if ok {
        var items := Query.SelectFirst(Dispatchable(rows, now), size);
        pass := Pass(now, size, items, clock, reply);
        ghost var before := rows;
        report := DispatchItems(pass);
        FirstIsEarliest(before, now, size, items);
        PassEnds(settings, before, rows, pass);
      }
    }

    /** CleanupArticleInspectTaskOutbox: deletes the first `limit` (100 when the caller gives none) expired
        terminal rows by (retained_until, id), and nothing else. */
    method CleanupExpired(limit: int, now: Time) returns (deleted: nat, ids: seq<Id>)
      modifies `rows
      ensures Query.IsFirst(Expired(old(rows), now), if limit <= 0 then 100 else limit, ids)
      ensures PicksOldest(old(rows), now, if limit <= 0 then 100 else limit, ids)
      ensures deleted == |ids|
      ensures forall id | id in old(rows) && id !in ids :: id in rows && rows[id] == old(rows)[id]
      ensures forall id | id in rows :: id in old(rows) && id !in ids
    {
      ids := Query.SelectFirst(Expired(rows, now), if limit <= 0 then 100 else limit);
      FirstIsOldest(rows, now, if limit <= 0 then 100 else limit, ids);
      rows := rows - (set id | id in ids);
      deleted := |ids|;
    }
  }

  lemma {:induction false} TallyFrame(a: map<Id, Row>, b: map<Id, Row>, items: seq<Id>, n: nat)
    requires n <= |items| && a.Keys == b.Keys && InTable(a, items)
    requires forall k | 0 <= k < n :: a[items[k]] == b[items[k]]
    ensures forall st :: Tally(a, items, st, n) == Tally(b, items, st, n)
  {
    if n > 0 {
      TallyFrame(a, b, items, n - 1);
    }
  }

  // ---------- termination ----------

  /** Attempts a row still has; a terminal row has none. */
  function Weight(cfg: Settings, row: Row): int {
    if Terminal(row) then 0 else cfg.maxAttempts - row.attempts
  }

  ghost function Potential(cfg: Settings, rows: map<Id, Row>): int
    decreases |rows|
  {
    if rows == map[] then 0
    else
      var id :| id in rows;
      Weight(cfg, rows[id]) + Potential(cfg, rows - {id})
  }

  lemma {:induction false} PotentialPick(cfg: Settings, rows: map<Id, Row>, id: Id)
    requires id in rows
    ensures Potential(cfg, rows) == Weight(cfg, rows[id]) + Potential(cfg, rows - {id})
    decreases |rows|
  {
    var x :| x in rows && Potential(cfg, rows) == Weight(cfg, rows[x]) + Potential(cfg, rows - {x});
    if x != id {
      PotentialPick(cfg, rows - {x}, id);
      PotentialPick(cfg, rows - {id}, x);
      assert rows - {x} - {id} == rows - {id} - {x};
    }
  }

  /** Rows with attempts left, as every reachable table has them (Protocol.AttemptCountBounded). */
  ghost predicate Bounded(cfg: Settings, rows: map<Id, Row>) {
    forall id | id in rows :: !Terminal(rows[id]) ==> rows[id].attempts < cfg.maxAttempts
  }

  lemma {:induction false} PotentialDrops(cfg: Settings, rows: map<Id, Row>, rows': map<Id, Row>, hit: set<Id>)
    requires rows.Keys == rows'.Keys && hit <= rows.Keys
    requires forall id | id in hit :: Weight(cfg, rows'[id]) < Weight(cfg, rows[id])
    requires forall id | id in rows && id !in hit :: rows'[id] == rows[id]
    ensures Potential(cfg, rows') + |hit| <= Potential(cfg, rows)
    decreases |rows|
  {
    if rows == map[] {
      assert rows' == map[] && hit == {};
    } else {
      var id :| id in rows;
      PotentialPick(cfg, rows, id);
      PotentialPick(cfg, rows', id);
      PotentialDrops(cfg, rows - {id}, rows' - {id}, hit - {id});
      assert id !in hit ==> hit - {id} == hit;
    }
  }

  lemma {:induction false} PotentialRange(cfg: Settings, rows: map<Id, Row>)
    requires cfg.Valid() && Bounded(cfg, rows)
    ensures 0 <= Potential(cfg, rows) <= |rows| * cfg.maxAttempts
    decreases |rows|
  {
    if rows != map[] {
      var id :| id in rows;
      PotentialPick(cfg, rows, id);
      PotentialRange(cfg, rows - {id});
      assert |rows - {id}| == |rows| - 1;
      OneTimesMore(|rows|, cfg.maxAttempts);
    }
  }

  lemma OneTimesMore(n: int, k: int)
    ensures n * k == (n - 1) * k + k
  {
  }

  lemma ZeroPotentialIsTerminal(cfg: Settings, rows: map<Id, Row>, id: Id)
    requires cfg.Valid() && Bounded(cfg, rows) && Potential(cfg, rows) <= 0 && id in rows
    ensures Terminal(rows[id])
  {
    PotentialPick(cfg, rows, id);
    PotentialRange(cfg, rows - {id});
  }

  /** One attempt on a dispatchable row uses up at least one of its remaining attempts. */
  lemma AttemptSpends(cfg: Settings, row: Row, now: Time, reply: Verdict)
    requires cfg.Valid() && IsDispatchable(row, now) && row.attempts < cfg.maxAttempts
    ensures
      var after := DispatchRow(cfg, row, now, reply);
      Weight(cfg, after) < Weight(cfg, row) && (!Terminal(after) ==> after.attempts < cfg.maxAttempts)
  {
  }

  /** A pass over s rows lowers the remaining attempts of the table by at least s and keeps it bounded. */
  lemma PassLowersPotential(cfg: Settings, rows: map<Id, Row>, rows': map<Id, Row>, p: Pass)
    requires cfg.Valid() && Bounded(cfg, rows) && p.Sane() && IsPass(cfg, rows, rows', p)
    ensures Potential(cfg, rows') + |p.items| <= Potential(cfg, rows)
    ensures Bounded(cfg, rows')
  {
    var hit := set k | 0 <= k < |p.items| :: p.items[k];
    forall id | id in hit
      ensures id in rows && Weight(cfg, rows'[id]) < Weight(cfg, rows[id])
      ensures !Terminal(rows'[id]) ==> rows'[id].attempts < cfg.maxAttempts
    {
      var k :| 0 <= k < |p.items| && p.items[k] == id;
      assert id in Dispatchable(rows, p.now);
      StillDispatchable(rows[id], p.now, p.clock(k));
      AttemptSpends(cfg, rows[id], p.clock(k), p.reply(k));
    }
    Query.DistinctSize(p.items);
    PotentialDrops(cfg, rows, rows', hit);
  }

  /** An empty pass means that every row left is leased or backing off, and only then is a pass empty. */
  lemma EmptyPassMeansWaiting(rows: map<Id, Row>, now: Time, limit: nat, items: seq<Id>)
    requires Query.IsFirst(Dispatchable(rows, now), limit, items) && limit > 0
    ensures |items| == 0 <==> forall id | id in rows && !Terminal(rows[id]) ::
      || (rows[id].status.Claimed? && rows[id].claimUntil.Some? && now <= rows[id].claimUntil.value)
      || (rows[id].status.Pending? && rows[id].nextAttemptAt.Some? && now < rows[id].nextAttemptAt.value)
  {
    if |items| == 0 {
      assert |Dispatchable(rows, now)| == 0;
      assert forall id | id in rows :: id !in Dispatchable(rows, now);
    } else {
      assert items[0] in Dispatchable(rows, now);
    }
  }

  ghost predicate AllTerminal(rows: map<Id, Row>) {
    forall id | id in rows :: Terminal(rows[id])
  }

  /** A pass that is not run while every open row is leased or backing off: some open row is due at its
      reading, unless none is left. */
  ghost predicate DuePass(cfg: Settings, rows: map<Id, Row>, rows': map<Id, Row>, p: Pass) {
    && p.Sane() && IsPass(cfg, rows, rows', p) && p.limit > 0
    && (AllTerminal(rows) || exists id | id in rows :: IsDispatchable(rows[id], p.now))
  }

  lemma DuePassStep(cfg: Settings, rows: map<Id, Row>, rows': map<Id, Row>, p: Pass)
    requires cfg.Valid() && Bounded(cfg, rows) && DuePass(cfg, rows, rows', p)
    ensures Bounded(cfg, rows')
    ensures AllTerminal(rows) ==> rows' == rows
    ensures !AllTerminal(rows) ==> |p.items| > 0 && Potential(cfg, rows') < Potential(cfg, rows)
  {
    PassLowersPotential(cfg, rows, rows', p);
    if AllTerminal(rows) {
      IdlePass(cfg, rows, rows', p);
    } else {
      var id :| id in rows && IsDispatchable(rows[id], p.now);
      assert id in Dispatchable(rows, p.now);
    }
  }

  /** A pass over a table without open rows leaves it alone. */
  lemma IdlePass(cfg: Settings, rows: map<Id, Row>, rows': map<Id, Row>, p: Pass)
    requires AllTerminal(rows) && IsPass(cfg, rows, rows', p)
    ensures rows' == rows
  {
    assert Dispatchable(rows, p.now) == map[];
  }

  /** With no new rows, N * MaxAttempts passes bring every row to dispatched or dead letter, whatever the
      queue answers: each pass, run when some open row is due, takes at least one attempt off the table. */
  lemma {:induction false} PassesTerminate(cfg: Settings, tables: seq<map<Id, Row>>, passes: seq<Pass>)
    requires cfg.Valid() && |tables| == |passes| + 1 && Bounded(cfg, tables[0])
    requires forall k | 0 <= k < |passes| :: DuePass(cfg, tables[k], tables[k + 1], passes[k])
    ensures |passes| >= |tables[0]| * cfg.maxAttempts ==> AllTerminal(tables[|passes|])
  {
    PassesProgress(cfg, tables, passes);
    var last := tables[|passes|];
    PotentialRange(cfg, tables[0]);
    if |passes| >= |tables[0]| * cfg.maxAttempts && !AllTerminal(last) {
      forall id | id in last ensures Terminal(last[id]) {
        ZeroPotentialIsTerminal(cfg, last, id);
      }
    }
  }

  lemma {:induction false} PassesProgress(cfg: Settings, tables: seq<map<Id, Row>>, passes: seq<Pass>)
    requires cfg.Valid() && |tables| == |passes| + 1 && Bounded(cfg, tables[0])
    requires forall k | 0 <= k < |passes| :: DuePass(cfg, tables[k], tables[k + 1], passes[k])
    ensures Bounded(cfg, tables[|passes|])
    ensures AllTerminal(tables[|passes|]) || Potential(cfg, tables[|passes|]) + |passes| <= Potential(cfg, tables[0])
  {
    if |passes| > 0 {
      var n := |passes| - 1;
      PassesProgress(cfg, tables[..n + 1], passes[..n]);
      assert DuePass(cfg, tables[n], tables[n + 1], passes[n]);
      DuePassStep(cfg, tables[n], tables[n + 1], passes[n]);
    }
  }

  /** And whenever the passes are run, at most N * MaxAttempts of them find anything to do. */
  lemma {:induction false} NonEmptyPassesBounded(cfg: Settings, tables: seq<map<Id, Row>>, passes: seq<Pass>)
    requires cfg.Valid() && |tables| == |passes| + 1 && Bounded(cfg, tables[0])
    requires forall k | 0 <= k < |passes| :: AnyPass(cfg, tables[k], tables[k + 1], passes[k])
    ensures Bounded(cfg, tables[|passes|])
    ensures Potential(cfg, tables[|passes|]) + NonEmpty(passes) <= Potential(cfg, tables[0])
    ensures NonEmpty(passes) <= |tables[0]| * cfg.maxAttempts
  {
    if |passes| > 0 {
      var n := |passes| - 1;
      NonEmptyPassesBounded(cfg, tables[..n + 1], passes[..n]);
      assert AnyPass(cfg, tables[n], tables[n + 1], passes[n]);
      PassLowersPotential(cfg, tables[n], tables[n + 1], passes[n]);
    }
    PotentialRange(cfg, tables[0]);
    PotentialRange(cfg, tables[|passes|]);
  }

  ghost predicate AnyPass(cfg: Settings, rows: map<Id, Row>, rows': map<Id, Row>, p: Pass) {
    p.Sane() && IsPass(cfg, rows, rows', p)
  }

  function NonEmpty(passes: seq<Pass>): nat {
    if passes == [] then 0
    else NonEmpty(passes[..|passes| - 1]) + if |passes[|passes| - 1].items| > 0 then 1 else 0
  }
}
