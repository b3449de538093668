/**
 The outbox message row, the relay settings, and the row updates of the relay
 (internal/modules/articleinspect/outbox). Each update is a function from the
 row in the table to the row the SQL UPDATE leaves behind, so that both the
 interleaving model (Protocol) and the imperative relay (Relay) use one text.
 */
module Outbox {
  import opened Common

  datatype Status = Pending | Claimed | Dispatched | DeadLetter

  datatype ErrorCode =
    | NoError
    | DispatchFailed
    | DispatcherUnavailable
    | PayloadDecode
    | UnsupportedMessage

  datatype Payload = Payload(taskId: Id, orgId: Id)

  /** A row of the outbox table. `payload` is the decoded JSON, None when it does not decode;
      `supported` says that the message type is the run-task type. */
  datatype Row = Row(
    orgId: Id,
    taskId: Id,
    supported: bool,
    payload: Option<Payload>,
    status: Status,
    attempts: nat,
    claimedAt: Option<Time>,
    claimUntil: Option<Time>,
    nextAttemptAt: Option<Time>,
    errorCode: ErrorCode,
    lastAttemptAt: Option<Time>,
    deadLetteredAt: Option<Time>,
    dispatchedAt: Option<Time>,
    retainedUntil: Option<Time>)

  /** A new message is due at once, whatever the clock says, and has no attempts behind it. */
  function NewRow(orgId: Id, taskId: Id, supported: bool, payload: Option<Payload>): (row: Row)
    ensures forall t :: IsDispatchable(row, t)
    ensures row.attempts == 0 && row.retainedUntil == None
    ensures row.orgId == orgId && row.taskId == taskId && row.supported == supported && row.payload == payload
  {
    Row(orgId, taskId, supported, payload, Pending, 0, None, None, None, NoError, None, None, None, None)
  }

  predicate Terminal(row: Row) {
    row.status.Dispatched? || row.status.DeadLetter?
  }

  /** The columns no relay ever writes. */
  predicate SameMessage(a: Row, b: Row) {
    && a.orgId == b.orgId
    && a.taskId == b.taskId
    && a.supported == b.supported
    && a.payload == b.payload
  }

  datatype Settings = Settings(
    lease: Time,
    maxAttempts: int,
    dispatchedRetention: Time,
    deadLetterRetention: Time)
  {
    predicate Valid() {
      lease > 0 && maxAttempts > 0 && dispatchedRetention > 0 && deadLetterRetention > 0
    }
  }

  const HOUR: Time := 3600 * SECOND

  const DEFAULT_SETTINGS := Settings(30 * SECOND, 10, 7 * 24 * HOUR, 30 * 24 * HOUR)

  /** The outbox section of the configuration file; zero or less means "not set". */
  datatype OutboxConfig = OutboxConfig(
    leaseSeconds: int,
    maxAttempts: int,
    dispatchedRetentionHours: int,
    deadLetterRetentionHours: int)

  /** NewTaskOutboxSettings: whatever the configuration file says, the settings are usable, and a value that is
      set is honoured. */
  function NewTaskOutboxSettings(config: OutboxConfig): (r: Settings)
    ensures r.Valid()
    ensures config.leaseSeconds > 0 <==> r.lease == config.leaseSeconds * SECOND
    ensures config.maxAttempts > 0 <==> r.maxAttempts == config.maxAttempts
    ensures config.dispatchedRetentionHours > 0 <==> r.dispatchedRetention == config.dispatchedRetentionHours * HOUR
    ensures config.deadLetterRetentionHours > 0 <==> r.deadLetterRetention == config.deadLetterRetentionHours * HOUR
  {
    WithSettings(DEFAULT_SETTINGS,
      Settings(config.leaseSeconds * SECOND, config.maxAttempts,
               config.dispatchedRetentionHours * HOUR, config.deadLetterRetentionHours * HOUR))
  }

  /** Every settings value that reaches a relay went through this merge: a non-positive
      request keeps the current value, so no configuration can make a setting unusable. */
  function WithSettings(current: Settings, request: Settings): (r: Settings)
    ensures current.Valid() ==> r.Valid()
    ensures request.Valid() ==> r == request
  {
    Settings(
      if request.lease > 0 then request.lease else current.lease,
      if request.maxAttempts > 0 then request.maxAttempts else current.maxAttempts,
      if request.dispatchedRetention > 0 then request.dispatchedRetention else current.dispatchedRetention,
      if request.deadLetterRetention > 0 then request.deadLetterRetention else current.deadLetterRetention)
  }

  /** isDispatchableMessage */
  predicate IsDispatchable(row: Row, now: Time) {
    match row.status
    case Pending => row.nextAttemptAt.None? || row.nextAttemptAt.value <= now
    case Claimed => row.claimUntil.None? || row.claimUntil.value < now
    case _ => false
  }

  /** The WHERE clause of the claim update. Its shape depends on the status that was read,
      its columns are those of the row now in the table. */
  predicate ClaimMatches(read: Row, row: Row, now: Time) {
    match read.status
    case Pending => row.status.Pending? && (row.nextAttemptAt.None? || row.nextAttemptAt.value <= now)
    case Claimed => row.status.Claimed? && (row.claimUntil.None? || row.claimUntil.value < now)
    case _ => false
  }

  function ClaimWrite(cfg: Settings, row: Row, now: Time): Row {
    row.(status := Claimed, claimedAt := Some(now), claimUntil := Some(now + cfg.lease))
  }

  /** What the relay knows after handing the payload to the queue. */
  datatype Verdict = Accepted | Failed(code: ErrorCode)

  predicate ShouldDeadLetter(cfg: Settings, msg: Row, code: ErrorCode) {
    || code.PayloadDecode?
    || code.UnsupportedMessage?
    || (cfg.maxAttempts > 0 && msg.attempts + 1 >= cfg.maxAttempts)
  }

  function Backoff(attempt: nat): Time {
    if attempt <= 3 then 15 * SECOND
    else if attempt <= 10 then 60 * SECOND
    else 300 * SECOND
  }

  /** markDispatched, scheduleRetry and moveToDeadLetter: the row left by the completion write of a
      relay that claimed `msg` at `now`. The write matches on the id alone, so `row` is whatever the
      table holds by then, and columns the UPDATE does not list keep their values. */
  function DispatchedWrite(cfg: Settings, msg: Row, now: Time, row: Row): Row {
    row.(status := Dispatched,
         attempts := msg.attempts + 1,
         claimedAt := None,
         claimUntil := None,
         nextAttemptAt := None,
         errorCode := NoError,
         lastAttemptAt := Some(now),
         deadLetteredAt := None,
         dispatchedAt := Some(now),
         retainedUntil := Some(now + cfg.dispatchedRetention))
  }

  function RetryWrite(msg: Row, now: Time, code: ErrorCode, row: Row): Row {
    row.(status := Pending,
         attempts := msg.attempts + 1,
         claimedAt := None,
         claimUntil := None,
         nextAttemptAt := Some(now + Backoff(msg.attempts + 1)),
         errorCode := code,
         lastAttemptAt := Some(now),
         deadLetteredAt := None)
  }

  function DeadLetterWrite(cfg: Settings, msg: Row, now: Time, code: ErrorCode, row: Row): Row {
    row.(status := DeadLetter,
         attempts := msg.attempts + 1,
         claimedAt := None,
         claimUntil := None,
         nextAttemptAt := None,
         errorCode := code,
         lastAttemptAt := Some(now),
         deadLetteredAt := Some(now),
         retainedUntil := Some(now + cfg.deadLetterRetention))
  }

  function CompletionWrite(cfg: Settings, msg: Row, now: Time, verdict: Verdict, row: Row): Row {
    match verdict
    case Accepted => DispatchedWrite(cfg, msg, now, row)
    case Failed(code) =>
      if ShouldDeadLetter(cfg, msg, code) then DeadLetterWrite(cfg, msg, now, code, row)
      else RetryWrite(msg, now, code, row)
  }

  /** The verdict of the hand-off: a message that does not decode, or of another type, is failed
      before the queue is called. `reply` is the queue's answer otherwise. */
  function HandOffVerdict(msg: Row, reply: Verdict): Verdict {
    if msg.payload.None? then Failed(PayloadDecode)
    else if !msg.supported then Failed(UnsupportedMessage)
    else reply
  }

  /** The only error codes classifyDispatchError produces for a failed hand-off. */
  predicate QueueReply(reply: Verdict) {
    reply.Failed? ==> reply.code.DispatchFailed? || reply.code.DispatcherUnavailable?
  }

  /** Total wait imposed by n failed attempts. */
  function BackoffSum(n: nat): Time {
    if n == 0 then 0 else BackoffSum(n - 1) + Backoff(n)
  }

  /** The waits add up to 15 s each for three attempts, a minute each up to the tenth, and five
      minutes each beyond. */
  lemma {:induction false} BackoffSumClosedForm(n: nat)
    ensures n <= 3 ==> BackoffSum(n) == 15 * n * SECOND
    ensures 3 <= n <= 10 ==> BackoffSum(n) == (45 + 60 * (n - 3)) * SECOND
    ensures 10 <= n ==> BackoffSum(n) == (465 + 300 * (n - 10)) * SECOND
  {
    if n > 0 {
      BackoffSumClosedForm(n - 1);
    }
  }

  lemma {:induction false} BackoffSumMonotone(m: nat, n: nat)
    requires m <= n
    ensures BackoffSum(m) <= BackoffSum(n)
    ensures m < n ==> BackoffSum(m) < BackoffSum(n)
  {
    if m < n {
      BackoffSumMonotone(m, n - 1);
    }
  }
}
