/**
 Relays, cleanup, task service, queue and workers as one step system over the shared tables.

 A step is one database statement, one transaction, one clock reading or one call to the queue, so
 that every interleaving of any number of callers is a sequence of steps. Clock readings are
 arbitrary here: nothing in this module assumes that callers' clocks agree or move forward. A call
 that fails on a database error, or dies, is a step that drops the caller.
 */
module Protocol {
  import opened Common
  import opened Outbox

  datatype Task = Task(orgId: Id, status: TaskStatus)

  /** How far one DispatchMessage call has come. */
  datatype Stage =
    | HasRead                               // row read, clock not yet read
    | Stamped(now: Time)                    // dispatchable at `now`, claim not yet issued
    | Held(now: Time)                       // the claim affected the row
    | HandedOff(now: Time, verdict: Verdict)   // the queue has answered

  /** A DispatchMessage call in flight; `msg` is its in-memory copy of the row. */
  datatype Attempt = Attempt(row: Id, msg: Row, stage: Stage)

  datatype WorkerStage = Received | Started | Scanning

  datatype Worker = Worker(payload: Payload, stage: WorkerStage)

  /** A cleanup call between its select and its delete. */
  datatype Cleanup = Cleanup(now: Time, limit: nat, rows: set<Id>)

  /** The outbox row a task was created with; recorded for specification only. */
  datatype Origin = Origin(row: Id, orgId: Id)

  datatype System = System(
    rows: map<Id, Row>,
    nextRow: Id,
    tasks: map<Id, Task>,
    nextTask: Id,
    attempts: map<Id, Attempt>,
    cleanups: map<Id, Cleanup>,
    deletions: map<Id, Payload>,      // TaskService.Delete calls past their status check
    queue: set<Payload>,              // everything the queue ever accepted
    workers: map<Id, Worker>,
    origins: map<Id, Origin>,         // history: task -> its message
    deadLettered: set<Id>)            // history: rows ever moved to dead letter

  const INIT := System(map[], 1, map[], 1, map[], map[], map[], {}, map[], map[], {})

  datatype Action =
    | CreateTask(orgId: Id)
    | InsertMessage(orgId: Id, taskId: Id, supported: bool, payload: Option<Payload>)
    | ReadRow(call: Id, row: Id)
    | Stamp(call: Id, now: Time)
    | Claim(call: Id)
    | HandOff(call: Id, reply: Verdict, landed: bool)
    | Complete(call: Id)
    | Crash(call: Id)
    | SelectExpired(call: Id, now: Time, limit: nat, rows: set<Id>)
    | DeleteExpired(call: Id)
    | CheckDelete(call: Id, taskId: Id, orgId: Id)
    | DeleteTask(call: Id)
    | Deliver(call: Id, job: Payload)
    | Start(call: Id)
    | Load(call: Id)
    | Finish(call: Id, status: TaskStatus)
    | WorkerCrash(call: Id)

  predicate Expired(row: Row, now: Time) {
    Terminal(row) && row.retainedUntil.Some? && row.retainedUntil.value < now
  }

  predicate StartMatches(s: System, payload: Payload) {
    && payload.taskId in s.tasks
    && s.tasks[payload.taskId].orgId == payload.orgId
    && s.tasks[payload.taskId].status.TaskPending?
  }

  predicate TaskExists(s: System, p: Payload) {
    p.taskId in s.tasks && s.tasks[p.taskId].orgId == p.orgId
  }

  predicate Enabled(s: System, act: Action) {
    match act
    case CreateTask(orgId) => orgId != 0
    case InsertMessage(_, _, _, _) => true
    case ReadRow(c, id) => c !in s.attempts && id in s.rows
    case Stamp(c, _) => c in s.attempts && s.attempts[c].stage.HasRead?
    case Claim(c) => c in s.attempts && s.attempts[c].stage.Stamped?
    case HandOff(c, reply, _) => c in s.attempts && s.attempts[c].stage.Held? && QueueReply(reply)
    case Complete(c) => c in s.attempts && s.attempts[c].stage.HandedOff?
    case Crash(c) => c in s.attempts
    case SelectExpired(c, now, limit, ids) =>
      c !in s.cleanups && |ids| <= limit && forall id | id in ids :: id in s.rows && Expired(s.rows[id], now)
    case DeleteExpired(c) => c in s.cleanups
    case CheckDelete(c, t, orgId) =>
      && c !in s.deletions
      && TaskExists(s, Payload(t, orgId))
      && (s.tasks[t].status.TaskPending? || s.tasks[t].status.TaskFailed?)
    case DeleteTask(c) => c in s.deletions
    case Deliver(c, p) => c !in s.workers && p in s.queue
    case Start(c) => c in s.workers && s.workers[c].stage.Received?
    case Load(c) => c in s.workers && s.workers[c].stage.Started?
    case Finish(c, status) =>
      c in s.workers && s.workers[c].stage.Scanning? && !status.TaskPending? && !status.TaskRunning?
    case WorkerCrash(c) => c in s.workers
  }

  /** The claim update of call `c` affects a row. */
  predicate ClaimWins(s: System, c: Id)
    requires c in s.attempts && s.attempts[c].stage.Stamped?
  {
    var a := s.attempts[c];
    a.row in s.rows && ClaimMatches(a.msg, s.rows[a.row], a.stage.now)
  }

  function CompletedRow(cfg: Settings, s: System, c: Id): Row
    requires c in s.attempts && s.attempts[c].stage.HandedOff? && s.attempts[c].row in s.rows
  {
    var a := s.attempts[c];
    CompletionWrite(cfg, a.msg, a.stage.now, a.stage.verdict, s.rows[a.row])
  }

  function TaskRows(s: System, p: Payload): set<Id> {
    set id | id in s.rows && s.rows[id].taskId == p.taskId && s.rows[id].orgId == p.orgId
  }

  // The effect of a step, table by table.

  function RowsNext(cfg: Settings, s: System, act: Action): map<Id, Row>
    requires Enabled(s, act)
  {
    match act
    case CreateTask(orgId) => s.rows[s.nextRow := NewRow(orgId, s.nextTask, true, Some(Payload(s.nextTask, orgId)))]
    case InsertMessage(orgId, taskId, supported, payload) => s.rows[s.nextRow := NewRow(orgId, taskId, supported, payload)]
    case Claim(c) =>
      var a := s.attempts[c];
      if ClaimWins(s, c) then s.rows[a.row := ClaimWrite(cfg, s.rows[a.row], a.stage.now)] else s.rows
    case Complete(c) =>
      var id := s.attempts[c].row;
      if id in s.rows then s.rows[id := CompletedRow(cfg, s, c)] else s.rows
    case DeleteExpired(c) => s.rows - s.cleanups[c].rows
    case DeleteTask(c) =>
      // when no task row is affected the transaction rolls back
      if TaskExists(s, s.deletions[c]) then s.rows - TaskRows(s, s.deletions[c]) else s.rows
    case _ => s.rows
  }

  function AttemptsNext(cfg: Settings, s: System, act: Action): map<Id, Attempt>
    requires Enabled(s, act)
  {
    match act
    case ReadRow(c, id) => s.attempts[c := Attempt(id, s.rows[id], HasRead)]
    case Stamp(c, now) =>
      if IsDispatchable(s.attempts[c].msg, now) then s.attempts[c := s.attempts[c].(stage := Stamped(now))]
      else s.attempts - {c}
    case Claim(c) =>
      var a := s.attempts[c];
      if ClaimWins(s, c) then s.attempts[c := Attempt(a.row, ClaimWrite(cfg, a.msg, a.stage.now), Held(a.stage.now))]
      else s.attempts - {c}
    case HandOff(c, reply, _) =>
      var a := s.attempts[c];
      s.attempts[c := a.(stage := HandedOff(a.stage.now, HandOffVerdict(a.msg, reply)))]
    case Complete(c) => s.attempts - {c}
    case Crash(c) => s.attempts - {c}
    case _ => s.attempts
  }

  /** An error reply (`landed`) does not prove that the queue did not take the task. */
  function QueueNext(s: System, act: Action): set<Payload>
    requires Enabled(s, act)
  {
    match act
    case HandOff(c, reply, landed) =>
      var msg := s.attempts[c].msg;
      if WellFormed(msg) && (reply.Accepted? || landed) then s.queue + {msg.payload.value} else s.queue
    case _ => s.queue
  }

  function DeadLetteredNext(cfg: Settings, s: System, act: Action): set<Id>
    requires Enabled(s, act)
  {
    match act
    case Complete(c) =>
      var id := s.attempts[c].row;
      if id in s.rows && CompletedRow(cfg, s, c).status.DeadLetter? then s.deadLettered + {id} else s.deadLettered
    case _ => s.deadLettered
  }

  function TasksNext(s: System, act: Action): map<Id, Task>
    requires Enabled(s, act)
  {
    match act
    case CreateTask(orgId) => s.tasks[s.nextTask := Task(orgId, TaskPending)]
    case DeleteTask(c) =>
      if TaskExists(s, s.deletions[c]) then s.tasks - {s.deletions[c].taskId} else s.tasks
    case Start(c) =>
      var p := s.workers[c].payload;
      if StartMatches(s, p) then s.tasks[p.taskId := Task(p.orgId, TaskRunning)] else s.tasks
    case Finish(c, status) =>
      var p := s.workers[c].payload;
      if TaskExists(s, p) then s.tasks[p.taskId := Task(p.orgId, status)] else s.tasks
    case _ => s.tasks
  }

  function WorkersNext(s: System, act: Action): map<Id, Worker>
    requires Enabled(s, act)
  {
    match act
    case Deliver(c, p) => s.workers[c := Worker(p, Received)]
    case Start(c) =>
      if StartMatches(s, s.workers[c].payload) then s.workers[c := Worker(s.workers[c].payload, Started)]
      else s.workers - {c}
    case Load(c) =>
      if TaskExists(s, s.workers[c].payload) then s.workers[c := Worker(s.workers[c].payload, Scanning)]
      else s.workers - {c}
    case Finish(c, _) => s.workers - {c}
    case WorkerCrash(c) => s.workers - {c}
    case _ => s.workers
  }

  function CleanupsNext(s: System, act: Action): map<Id, Cleanup>
    requires Enabled(s, act)
  {
    match act
    case SelectExpired(c, now, limit, ids) => s.cleanups[c := Cleanup(now, limit, ids)]
    case DeleteExpired(c) => s.cleanups - {c}
    case _ => s.cleanups
  }

  function DeletionsNext(s: System, act: Action): map<Id, Payload>
    requires Enabled(s, act)
  {
    match act
    case CheckDelete(c, t, orgId) => s.deletions[c := Payload(t, orgId)]
    case DeleteTask(c) => s.deletions - {c}
    case _ => s.deletions
  }

  function Apply(cfg: Settings, s: System, act: Action): System
    requires Enabled(s, act)
  {
    System(
      RowsNext(cfg, s, act),
      if act.CreateTask? || act.InsertMessage? then s.nextRow + 1 else s.nextRow,
      TasksNext(s, act),
      if act.CreateTask? then s.nextTask + 1 else s.nextTask,
      AttemptsNext(cfg, s, act),
      CleanupsNext(s, act),
      DeletionsNext(s, act),
      QueueNext(s, act),
      WorkersNext(s, act),
      if act.CreateTask? then s.origins[s.nextTask := Origin(s.nextRow, act.orgId)] else s.origins,
      DeadLetteredNext(cfg, s, act))
  }

  // ---------- runs ----------

  predicate StepAt(cfg: Settings, ss: seq<System>, acts: seq<Action>, i: nat)
    requires i < |acts| && |ss| == |acts| + 1
  {
    Enabled(ss[i], acts[i]) && ss[i + 1] == Apply(cfg, ss[i], acts[i])
  }

  ghost predicate IsRun(cfg: Settings, ss: seq<System>, acts: seq<Action>) {
    && |ss| == |acts| + 1
    && ss[0] == INIT
    && forall i | 0 <= i < |acts| :: StepAt(cfg, ss, acts, i)
  }

  function Last(ss: seq<System>): System
    requires |ss| > 0
  {
    ss[|ss| - 1]
  }

  lemma Extend(cfg: Settings, ss: seq<System>, acts: seq<Action>, act: Action) returns (ss': seq<System>, acts': seq<Action>)
    requires IsRun(cfg, ss, acts) && Enabled(Last(ss), act)
    ensures ss <= ss' && |ss'| == |ss| + 1 && Last(ss') == Apply(cfg, Last(ss), act)
    ensures IsRun(cfg, ss', acts') && acts' == acts + [act]
  {
    ss', acts' := ss + [Apply(cfg, Last(ss), act)], acts + [act];
    forall i | 0 <= i < |acts'| ensures StepAt(cfg, ss', acts', i) {
      assert i < |acts| ==> StepAt(cfg, ss, acts, i);
    }
  }

  /** The steps of one DispatchMessage call up to its claim, with nothing in between, on a row that is
      dispatchable at `now`. */
  lemma SoloClaim(cfg: Settings, ss: seq<System>, acts: seq<Action>, c: Id, id: Id, now: Time)
      returns (ss': seq<System>, acts': seq<Action>)
    requires IsRun(cfg, ss, acts)
    requires c !in Last(ss).attempts && id in Last(ss).rows && IsDispatchable(Last(ss).rows[id], now)
    ensures IsRun(cfg, ss', acts') && ss <= ss' && |ss| < |ss'|
    ensures
      var row := ClaimWrite(cfg, Last(ss).rows[id], now);
      Last(ss') == Last(ss).(rows := Last(ss).rows[id := row], attempts := Last(ss).attempts[c := Attempt(id, row, Held(now))])
  {
    ss', acts' := Extend(cfg, ss, acts, ReadRow(c, id));
    ss', acts' := Extend(cfg, ss', acts', Stamp(c, now));
    ss', acts' := Extend(cfg, ss', acts', Claim(c));
    assert Last(ss').attempts == Last(ss).attempts[c := Attempt(id, ClaimWrite(cfg, Last(ss).rows[id], now), Held(now))];
  }

  /** A call on a row that is not dispatchable at `now` gives up after reading it. */
  lemma SoloIdle(cfg: Settings, ss: seq<System>, acts: seq<Action>, c: Id, id: Id, now: Time)
      returns (ss': seq<System>, acts': seq<Action>)
    requires IsRun(cfg, ss, acts)
    requires c !in Last(ss).attempts && id in Last(ss).rows && !IsDispatchable(Last(ss).rows[id], now)
    ensures IsRun(cfg, ss', acts') && ss <= ss' && |ss| < |ss'|
    ensures Last(ss') == Last(ss)
  {
    ss', acts' := Extend(cfg, ss, acts, ReadRow(c, id));
    ss', acts' := Extend(cfg, ss', acts', Stamp(c, now));
    assert Last(ss').attempts == Last(ss).attempts;
  }

  /** The rest of the call: hand-off and completion write. */
  lemma SoloComplete(cfg: Settings, ss: seq<System>, acts: seq<Action>, c: Id, reply: Verdict)
      returns (ss': seq<System>, acts': seq<Action>)
    requires IsRun(cfg, ss, acts) && QueueReply(reply)
    requires c in Last(ss).attempts && Last(ss).attempts[c].stage.Held? && Last(ss).attempts[c].row in Last(ss).rows
    ensures IsRun(cfg, ss', acts') && ss <= ss' && |ss| < |ss'|
    ensures
      var a := Last(ss).attempts[c];
      var verdict := HandOffVerdict(a.msg, reply);
      && Last(ss').rows == Last(ss).rows[a.row := CompletionWrite(cfg, a.msg, a.stage.now, verdict, Last(ss).rows[a.row])]
      && Last(ss').attempts == Last(ss).attempts - {c}
      && Last(ss').queue == Last(ss).queue + (if verdict.Accepted? then {a.msg.payload.value} else {})
  {
    ss', acts' := Extend(cfg, ss, acts, HandOff(c, reply, false));
    ss', acts' := Extend(cfg, ss', acts', Complete(c));
  }

  /** Creating a task writes a pending task and, in the same step, a message of its own that is due at once. */
  lemma TaskAndMessageTogether(cfg: Settings, s: System, orgId: Id)
    requires orgId != 0
    ensures
      var s' := Apply(cfg, s, CreateTask(orgId));
      && s'.tasks == s.tasks[s.nextTask := Task(orgId, TaskPending)]
      && s.nextRow in s'.rows && ServiceMessage(s'.rows[s.nextRow], s.nextTask, orgId)
      && (forall t :: IsDispatchable(s'.rows[s.nextRow], t))
      && s'.rows == s.rows[s.nextRow := s'.rows[s.nextRow]]
  {
  }

  lemma SoloStart(cfg: Settings, ss: seq<System>, acts: seq<Action>, c: Id, job: Payload)
      returns (ss': seq<System>, acts': seq<Action>)
    requires IsRun(cfg, ss, acts) && c !in Last(ss).workers && job in Last(ss).queue && StartMatches(Last(ss), job)
    ensures IsRun(cfg, ss', acts') && ss <= ss' && acts' == acts + [Deliver(c, job), Start(c)]
    ensures
      Last(ss') == Last(ss).(tasks := Last(ss).tasks[job.taskId := Task(job.orgId, TaskRunning)],
                             workers := Last(ss).workers[c := Worker(job, Started)])
  {
    ss', acts' := Extend(cfg, ss, acts, Deliver(c, job));
    ss', acts' := Extend(cfg, ss', acts', Start(c));
    assert Last(ss').workers == Last(ss).workers[c := Worker(job, Started)];
  }

  lemma SoloScan(cfg: Settings, ss: seq<System>, acts: seq<Action>, c: Id, job: Payload, status: TaskStatus)
      returns (ss': seq<System>, acts': seq<Action>)
    requires IsRun(cfg, ss, acts) && TaskExists(Last(ss), job) && !status.TaskPending? && !status.TaskRunning?
    requires c in Last(ss).workers && Last(ss).workers[c] == Worker(job, Started)
    ensures IsRun(cfg, ss', acts') && ss <= ss' && acts' == acts + [Load(c), Finish(c, status)]
    ensures
      Last(ss') == Last(ss).(tasks := Last(ss).tasks[job.taskId := Task(job.orgId, status)],
                             workers := Last(ss).workers - {c})
  {
    ss', acts' := Extend(cfg, ss, acts, Load(c));
    ss', acts' := Extend(cfg, ss', acts', Finish(c, status));
    assert Last(ss').workers == Last(ss).workers - {c};
  }

  /** A worker that receives a queued job of a pending task, with nothing in between, wins the start, gets into the
      scan body and writes the final status. */
  lemma SoloWorker(cfg: Settings, ss: seq<System>, acts: seq<Action>, c: Id, job: Payload, status: TaskStatus)
      returns (ss': seq<System>, acts': seq<Action>)
    requires IsRun(cfg, ss, acts) && c !in Last(ss).workers && job in Last(ss).queue
    requires job.taskId in Last(ss).tasks && Last(ss).tasks[job.taskId] == Task(job.orgId, TaskPending)
    requires !status.TaskPending? && !status.TaskRunning?
    ensures IsRun(cfg, ss', acts') && ss <= ss'
    ensures acts' == acts + [Deliver(c, job), Start(c), Load(c), Finish(c, status)]
    ensures Last(ss') == Last(ss).(tasks := Last(ss).tasks[job.taskId := Task(job.orgId, status)])
  {
    ss', acts' := SoloStart(cfg, ss, acts, c, job);
    ss', acts' := SoloScan(cfg, ss', acts', c, job, status);
    assert Last(ss').workers == Last(ss).workers;
    assert Last(ss').tasks == Last(ss).tasks[job.taskId := Task(job.orgId, status)];
  }

  // ---------- what every step keeps, in all interleavings ----------

  ghost predicate FreshIds(s: System) {
    && (forall id | id in s.rows :: id < s.nextRow)
    && (forall c | c in s.attempts :: s.attempts[c].row < s.nextRow)
    && (forall t | t in s.tasks :: t < s.nextTask && t in s.origins && s.tasks[t].orgId == s.origins[t].orgId)
    && (forall t | t in s.origins :: t < s.nextTask && s.origins[t].row < s.nextRow)
    && (forall c, id | c in s.cleanups && id in s.cleanups[c].rows :: id < s.nextRow)
  }

  /** The in-memory copy of a call never disagrees with the table on what the message is. */
  ghost predicate CopiesAgree(s: System) {
    && (forall c | c in s.attempts && s.attempts[c].row in s.rows ::
          SameMessage(s.attempts[c].msg, s.rows[s.attempts[c].row]))
    && (forall t | t in s.origins && s.origins[t].row in s.rows ::
          ServiceMessage(s.rows[s.origins[t].row], t, s.origins[t].orgId))
  }

  /** A message as CreateWithOutbox writes it for task t. */
  predicate ServiceMessage(row: Row, t: Id, orgId: Id) {
    row.orgId == orgId && row.taskId == t && row.supported && row.payload == Some(Payload(t, orgId))
  }

  /** A message that only failed hand-offs can dead-letter. */
  predicate WellFormed(row: Row) {
    row.supported && row.payload.Some?
  }

  ghost predicate AttemptBounds(cfg: Settings, s: System) {
    && (forall id | id in s.rows :: RowBounds(cfg, s.rows[id]))
    && (forall c | c in s.attempts :: CallBounds(cfg, s.attempts[c]))
  }

  predicate RowBounds(cfg: Settings, row: Row) {
    && row.attempts <= cfg.maxAttempts
    && (!Terminal(row) ==> row.attempts < cfg.maxAttempts)
    && (row.status.DeadLetter? && WellFormed(row) ==> row.attempts == cfg.maxAttempts)
    && (!WellFormed(row) ==> MalformedRow(row))
    && (row.status.Dispatched? ==>
          row.dispatchedAt.Some? && row.retainedUntil == Some(row.dispatchedAt.value + cfg.dispatchedRetention))
    && (row.status.DeadLetter? ==>
          row.deadLetteredAt.Some? && row.retainedUntil == Some(row.deadLetteredAt.value + cfg.deadLetterRetention))
  }

  /** A message that does not decode, or of another type, is waiting for its first attempt or was
      dead-lettered by it. */
  predicate MalformedRow(row: Row) {
    if Terminal(row) then row.status.DeadLetter? && row.attempts == 1 && row.errorCode == MalformedCode(row)
    else row.attempts == 0
  }

  function MalformedCode(row: Row): ErrorCode {
    if row.payload.None? then PayloadDecode else UnsupportedMessage
  }

  predicate CallBounds(cfg: Settings, a: Attempt) {
    && a.msg.attempts <= cfg.maxAttempts
    && (!a.stage.HasRead? ==> a.msg.attempts < cfg.maxAttempts && !Terminal(a.msg))
    && (a.stage.HasRead? ==> RowBounds(cfg, a.msg))
    && (a.stage.HandedOff? && a.stage.verdict.Failed? && WellFormed(a.msg) ==>
          !a.stage.verdict.code.PayloadDecode? && !a.stage.verdict.code.UnsupportedMessage?)
    && (!a.stage.HasRead? && !WellFormed(a.msg) ==> a.msg.attempts == 0)
    && (a.stage.HandedOff? && !WellFormed(a.msg) ==> a.stage.verdict == Failed(MalformedCode(a.msg)))
  }

  ghost predicate AcceptedBeforeDispatched(s: System) {
    && (forall c | c in s.attempts :: CallAccepted(s, s.attempts[c]))
    && (forall id | id in s.rows && s.rows[id].status.Dispatched? :: PayloadAccepted(s, s.rows[id]))
  }

  predicate PayloadAccepted(s: System, row: Row) {
    row.payload.Some? && row.payload.value in s.queue
  }

  predicate CallAccepted(s: System, a: Attempt) {
    a.stage.HandedOff? && a.stage.verdict == Accepted ==> PayloadAccepted(s, a.msg)
  }

  predicate Taken(s: System, t: Id)
    requires t in s.origins
  {
    Payload(t, s.origins[t].orgId) in s.queue || s.origins[t].row in s.deadLettered
  }

  predicate Remembered(s: System, t: Id)
    requires t in s.origins
  {
    (s.origins[t].row in s.rows && !Terminal(s.rows[s.origins[t].row])) || Taken(s, t)
  }

  ghost predicate NothingForgotten(s: System) {
    && (forall t | t in s.tasks :: t in s.origins && Remembered(s, t))
    && (forall id | id in s.rows && s.rows[id].status.DeadLetter? :: id in s.deadLettered)
    && (forall c, t | c in s.cleanups && t in s.origins && s.origins[t].row in s.cleanups[c].rows :: Taken(s, t))
  }

  predicate Holds(w: Worker, t: Id) {
    w.payload.taskId == t && !w.stage.Received?
  }

  /** A worker past the compare-and-set is alone on its task, and the task is running unless deleted. */
  ghost predicate SingleWorker(s: System) {
    && (forall c | c in s.workers && !s.workers[c].stage.Received? ::
          var t := s.workers[c].payload.taskId;
          t < s.nextTask && (t in s.tasks ==> s.tasks[t].status.TaskRunning?))
    && (forall c, d, t | c in s.workers && d in s.workers && Holds(s.workers[c], t) && Holds(s.workers[d], t) :: c == d)
  }

  ghost predicate Safe(cfg: Settings, s: System) {
    && FreshIds(s)
    && CopiesAgree(s)
    && AttemptBounds(cfg, s)
    && AcceptedBeforeDispatched(s)
    && NothingForgotten(s)
    && SingleWorker(s)
  }

  // ---------- inversion: where a row, a call or a worker after a step comes from ----------

  ghost predicate RowFrom(cfg: Settings, s: System, act: Action, id: Id, row: Row)
    requires Enabled(s, act)
  {
    || (id in s.rows && row == s.rows[id])
    || (act.CreateTask? && id == s.nextRow && row == NewRow(act.orgId, s.nextTask, true, Some(Payload(s.nextTask, act.orgId))))
    || (act.InsertMessage? && id == s.nextRow && row == NewRow(act.orgId, act.taskId, act.supported, act.payload))
    || (act.Claim? && ClaimWins(s, act.call) && id == s.attempts[act.call].row
        && row == ClaimWrite(cfg, s.rows[id], s.attempts[act.call].stage.now))
    || (act.Complete? && id == s.attempts[act.call].row && id in s.rows && row == CompletedRow(cfg, s, act.call))
  }

  lemma RowsAfter(cfg: Settings, s: System, act: Action, id: Id)
    requires Enabled(s, act) && id in RowsNext(cfg, s, act)
    ensures RowFrom(cfg, s, act, id, RowsNext(cfg, s, act)[id])
  {
  }

  ghost predicate CallFrom(cfg: Settings, s: System, act: Action, c: Id, a: Attempt)
    requires Enabled(s, act)
  {
    || (c in s.attempts && a == s.attempts[c])
    || (act.ReadRow? && c == act.call && a == Attempt(act.row, s.rows[act.row], HasRead))
    || (act.Stamp? && c == act.call && IsDispatchable(s.attempts[c].msg, act.now)
        && a == s.attempts[c].(stage := Stamped(act.now)))
    || (act.Claim? && c == act.call && ClaimWins(s, c)
        && a == Attempt(s.attempts[c].row, ClaimWrite(cfg, s.attempts[c].msg, s.attempts[c].stage.now), Held(s.attempts[c].stage.now)))
    || (act.HandOff? && c == act.call
        && a == s.attempts[c].(stage := HandedOff(s.attempts[c].stage.now, HandOffVerdict(s.attempts[c].msg, act.reply))))
  }

  lemma CallsAfter(cfg: Settings, s: System, act: Action, c: Id)
    requires Enabled(s, act) && c in AttemptsNext(cfg, s, act)
    ensures CallFrom(cfg, s, act, c, AttemptsNext(cfg, s, act)[c])
  {
  }

  lemma FreshIdsStep(cfg: Settings, s: System, act: Action)
    requires FreshIds(s) && Enabled(s, act)
    ensures FreshIds(Apply(cfg, s, act))
  {
    var s' := Apply(cfg, s, act);
    forall id | id in s'.rows ensures id < s'.nextRow { RowsAfter(cfg, s, act, id); }
    forall c | c in s'.attempts ensures s'.attempts[c].row < s'.nextRow { CallsAfter(cfg, s, act, c); }
  }

  lemma CopiesAgreeStep(cfg: Settings, s: System, act: Action)
    requires FreshIds(s) && CopiesAgree(s) && Enabled(s, act)
    ensures CopiesAgree(Apply(cfg, s, act))
  {
    var s' := Apply(cfg, s, act);
    forall c | c in s'.attempts && s'.attempts[c].row in s'.rows
      ensures SameMessage(s'.attempts[c].msg, s'.rows[s'.attempts[c].row])
    {
      CallsAfter(cfg, s, act, c);
      RowsAfter(cfg, s, act, s'.attempts[c].row);
    }
    forall t | t in s'.origins && s'.origins[t].row in s'.rows
      ensures ServiceMessage(s'.rows[s'.origins[t].row], t, s'.origins[t].orgId)
    {
      RowsAfter(cfg, s, act, s'.origins[t].row);
    }
  }

  lemma CompletedRowBounds(cfg: Settings, a: Attempt, row: Row)
    requires cfg.Valid() && CallBounds(cfg, a) && a.stage.HandedOff? && SameMessage(a.msg, row)
    ensures RowBounds(cfg, CompletionWrite(cfg, a.msg, a.stage.now, a.stage.verdict, row))
  {
  }

  lemma AttemptBoundsStep(cfg: Settings, s: System, act: Action)
    requires cfg.Valid()
    requires CopiesAgree(s) && AttemptBounds(cfg, s) && Enabled(s, act)
    ensures AttemptBounds(cfg, Apply(cfg, s, act))
  {
    var s' := Apply(cfg, s, act);
    forall id | id in s'.rows ensures RowBounds(cfg, s'.rows[id]) {
      RowsAfter(cfg, s, act, id);
      if act.Complete? && id in s.rows && id == s.attempts[act.call].row {
        CompletedRowBounds(cfg, s.attempts[act.call], s.rows[id]);
      }
    }
    forall c | c in s'.attempts ensures CallBounds(cfg, s'.attempts[c]) {
      CallsAfter(cfg, s, act, c);
    }
  }

  lemma AcceptedStep(cfg: Settings, s: System, act: Action)
    requires CopiesAgree(s) && AcceptedBeforeDispatched(s) && Enabled(s, act)
    ensures AcceptedBeforeDispatched(Apply(cfg, s, act))
  {
    var s' := Apply(cfg, s, act);
    forall c | c in s'.attempts ensures CallAccepted(s', s'.attempts[c]) {
      CallsAfter(cfg, s, act, c);
    }
    forall id | id in s'.rows && s'.rows[id].status.Dispatched? ensures PayloadAccepted(s', s'.rows[id]) {
      RowsAfter(cfg, s, act, id);
    }
  }

  /** What the queue or the dead-letter table took stays taken. */
  lemma TakenStep(cfg: Settings, s: System, act: Action, t: Id)
    requires Enabled(s, act) && FreshIds(s) && t in s.origins && Taken(s, t)
    ensures t in Apply(cfg, s, act).origins && Taken(Apply(cfg, s, act), t)
  {
  }

  /** A terminal message of a task was accepted by the queue or dead-lettered. */
  lemma TerminalIsTaken(s: System, t: Id)
    requires CopiesAgree(s) && AcceptedBeforeDispatched(s) && NothingForgotten(s)
    requires t in s.origins && s.origins[t].row in s.rows && Terminal(s.rows[s.origins[t].row])
    ensures Taken(s, t)
  {
    assert ServiceMessage(s.rows[s.origins[t].row], t, s.origins[t].orgId);
  }

  /** The heart of "no committed task is forgotten": a task that survives a step is still remembered. */
  lemma RememberedStep(cfg: Settings, s: System, act: Action, t: Id)
    requires FreshIds(s) && CopiesAgree(s) && AcceptedBeforeDispatched(s) && NothingForgotten(s)
    requires Enabled(s, act) && t in TasksNext(s, act)
    ensures t in Apply(cfg, s, act).origins && Remembered(Apply(cfg, s, act), t)
  {
    var s' := Apply(cfg, s, act);
    if t !in s.origins {
    } else if Taken(s, t) {
      TakenStep(cfg, s, act, t);
    } else {
      var id := s.origins[t].row;
      assert ServiceMessage(s.rows[id], t, s.origins[t].orgId);
      if act.DeleteExpired? {
        assert id !in s.cleanups[act.call].rows;
      } else if act.Complete? && s.attempts[act.call].row == id {
        CopiesAgreeStep(cfg, s, act);
        AcceptedStep(cfg, s, act);
        assert ServiceMessage(s'.rows[id], t, s'.origins[t].orgId);
      }
    }
  }

  lemma NothingForgottenStep(cfg: Settings, s: System, act: Action)
    requires FreshIds(s) && CopiesAgree(s) && AcceptedBeforeDispatched(s) && NothingForgotten(s)
    requires Enabled(s, act)
    ensures NothingForgotten(Apply(cfg, s, act))
  {
    var s' := Apply(cfg, s, act);
    forall t | t in s'.tasks ensures t in s'.origins && Remembered(s', t) {
      RememberedStep(cfg, s, act, t);
    }
    forall id | id in s'.rows && s'.rows[id].status.DeadLetter? ensures id in s'.deadLettered {
      RowsAfter(cfg, s, act, id);
    }
    forall c, t | c in s'.cleanups && t in s'.origins && s'.origins[t].row in s'.cleanups[c].rows
      ensures Taken(s', t)
    {
      CleanupTaken(cfg, s, act, c, t);
    }
  }

  lemma CleanupTaken(cfg: Settings, s: System, act: Action, c: Id, t: Id)
    requires FreshIds(s) && CopiesAgree(s) && AcceptedBeforeDispatched(s) && NothingForgotten(s)
    requires Enabled(s, act) && c in CleanupsNext(s, act) && t in Apply(cfg, s, act).origins
    requires Apply(cfg, s, act).origins[t].row in CleanupsNext(s, act)[c].rows
    ensures Taken(Apply(cfg, s, act), t)
  {
    if act.SelectExpired? && c == act.call {
      TerminalIsTaken(s, t);
    } else {
      assert t in s.origins;
    }
    TakenStep(cfg, s, act, t);
  }

  ghost predicate WorkerFrom(s: System, act: Action, c: Id, w: Worker)
    requires Enabled(s, act)
  {
    || (c in s.workers && w == s.workers[c])
    || w.stage.Received?
    || (act.Start? && c == act.call && StartMatches(s, s.workers[c].payload) && w == Worker(s.workers[c].payload, Started))
    || (act.Load? && c == act.call && TaskExists(s, s.workers[c].payload) && w == Worker(s.workers[c].payload, Scanning))
  }

  lemma WorkersAfter(s: System, act: Action, c: Id)
    requires Enabled(s, act) && c in WorkersNext(s, act)
    ensures WorkerFrom(s, act, c, WorkersNext(s, act)[c])
  {
  }

  /** A worker that holds t after a step held it before, unless it just won the compare-and-set. */
  lemma HolderAfter(s: System, act: Action, c: Id, t: Id)
    requires Enabled(s, act) && c in WorkersNext(s, act) && Holds(WorkersNext(s, act)[c], t)
    ensures c in s.workers
    ensures Holds(s.workers[c], t) || (WinsStart(s, act, t) && c == act.call)
  {
    WorkersAfter(s, act, c);
  }

  predicate WinsStart(s: System, act: Action, t: Id)
    requires Enabled(s, act)
  {
    act.Start? && StartMatches(s, s.workers[act.call].payload) && s.workers[act.call].payload.taskId == t
  }

  predicate WritesFinish(s: System, act: Action, t: Id)
    requires Enabled(s, act)
  {
    act.Finish? && TaskExists(s, s.workers[act.call].payload) && s.workers[act.call].payload.taskId == t
  }

  predicate Final(status: TaskStatus) {
    !status.TaskPending? && !status.TaskRunning?
  }

  /** The task table changes in no other way. */
  lemma TasksAfter(s: System, act: Action, t: Id)
    requires SingleWorker(s) && FreshIds(s) && Enabled(s, act) && t in TasksNext(s, act)
    ensures t in s.tasks || (t == s.nextTask && act.CreateTask? && TasksNext(s, act)[t].status.TaskPending?)
    ensures t in s.tasks ==>
      var before, after := s.tasks[t].status, TasksNext(s, act)[t].status;
      if WinsStart(s, act, t) then before.TaskPending? && after.TaskRunning?
      else if WritesFinish(s, act, t) then before.TaskRunning? && after == act.status && Final(after)
      else before == after
  {
    if act.Finish? {
      assert Holds(s.workers[act.call], s.workers[act.call].payload.taskId);
    }
  }

  lemma SingleWorkerStep(cfg: Settings, s: System, act: Action)
    requires FreshIds(s) && SingleWorker(s) && Enabled(s, act)
    ensures SingleWorker(Apply(cfg, s, act))
  {
    var s' := Apply(cfg, s, act);
    forall c | c in s'.workers && !s'.workers[c].stage.Received?
      ensures s'.workers[c].payload.taskId < s'.nextTask
      ensures s'.workers[c].payload.taskId in s'.tasks ==> s'.tasks[s'.workers[c].payload.taskId].status.TaskRunning?
    {
      var t := s'.workers[c].payload.taskId;
      assert Holds(s'.workers[c], t);
      HolderAfter(s, act, c, t);
      if t in s'.tasks {
        TasksAfter(s, act, t);
        if WritesFinish(s, act, t) {
          assert Holds(s.workers[act.call], t);
        }
      }
    }
    forall c, d, t | c in s'.workers && d in s'.workers && Holds(s'.workers[c], t) && Holds(s'.workers[d], t)
      ensures c == d
    {
      HolderAfter(s, act, c, t);
      HolderAfter(s, act, d, t);
    }
  }

  // ---------- theorems over every run ----------

  lemma SafeStep(cfg: Settings, s: System, act: Action)
    requires cfg.Valid() && Safe(cfg, s) && Enabled(s, act)
    ensures Safe(cfg, Apply(cfg, s, act))
  {
    FreshIdsStep(cfg, s, act);
    CopiesAgreeStep(cfg, s, act);
    AttemptBoundsStep(cfg, s, act);
    AcceptedStep(cfg, s, act);
    NothingForgottenStep(cfg, s, act);
    SingleWorkerStep(cfg, s, act);
  }

  lemma {:induction false} ReachableSafe(cfg: Settings, ss: seq<System>, acts: seq<Action>, i: nat)
    requires cfg.Valid() && IsRun(cfg, ss, acts) && i < |ss|
    ensures Safe(cfg, ss[i])
  {
    if i > 0 {
      ReachableSafe(cfg, ss, acts, i - 1);
      assert StepAt(cfg, ss, acts, i - 1);
      SafeStep(cfg, ss[i - 1], acts[i - 1]);
    }
  }

  lemma ReachableFresh(cfg: Settings, ss: seq<System>, acts: seq<Action>, i: nat)
    requires cfg.Valid() && IsRun(cfg, ss, acts) && i < |ss|
    ensures FreshIds(ss[i])
  {
    ReachableSafe(cfg, ss, acts, i);
  }

  lemma RowBoundsAt(cfg: Settings, ss: seq<System>, acts: seq<Action>, i: nat, id: Id)
    requires cfg.Valid() && IsRun(cfg, ss, acts) && i < |ss| && id in ss[i].rows
    ensures RowBounds(cfg, ss[i].rows[id])
  {
    ReachableSafe(cfg, ss, acts, i);
  }

  /** No committed task is forgotten: at every point of every interleaving, the message of a task still in
      the table is waiting (pending or leased), or the queue accepted that task's id, or the message was
      dead-lettered. */
  lemma NoTaskForgotten(cfg: Settings, ss: seq<System>, acts: seq<Action>, i: nat, t: Id)
    requires cfg.Valid() && IsRun(cfg, ss, acts) && i < |ss| && t in ss[i].tasks
    ensures t in ss[i].origins
    ensures
      var id := ss[i].origins[t].row;
      || (id in ss[i].rows && (ss[i].rows[id].status.Pending? || ss[i].rows[id].status.Claimed?))
      || Payload(t, ss[i].tasks[t].orgId) in ss[i].queue
      || id in ss[i].deadLettered
  {
    ReachableSafe(cfg, ss, acts, i);
  }

  /** Status dispatched always implies that the queue took the payload of that very message in some earlier
      step; for a message of the task service that payload names the row's own task. */
  lemma DispatchedWasAccepted(cfg: Settings, ss: seq<System>, acts: seq<Action>, i: nat, id: Id)
      returns (j: nat)
    requires cfg.Valid() && IsRun(cfg, ss, acts) && i < |ss|
    requires id in ss[i].rows && ss[i].rows[id].status.Dispatched?
    ensures ss[i].rows[id].payload.Some?
    ensures j < i && Accepts(ss[j], acts[j], ss[i].rows[id].payload.value)
    ensures ss[i].rows[id].payload.value !in ss[j].queue && ss[i].rows[id].payload.value in ss[j + 1].queue
    ensures forall t | t in ss[i].origins && ss[i].origins[t].row == id ::
      ss[i].rows[id].taskId == t && ss[i].rows[id].payload.value.taskId == t
  {
    ReachableSafe(cfg, ss, acts, i);
    j := AcceptanceStep(cfg, ss, acts, i, ss[i].rows[id].payload.value);
  }

  /** A step in which the queue takes payload p: the hand-off of a well-formed message that carries it. */
  predicate Accepts(s: System, act: Action, p: Payload) {
    && act.HandOff?
    && (act.reply.Accepted? || act.landed)
    && act.call in s.attempts
    && WellFormed(s.attempts[act.call].msg)
    && s.attempts[act.call].msg.payload == Some(p)
  }

  /** Whatever the queue holds entered it in one hand-off step, before which it was not there. */
  lemma {:induction false} AcceptanceStep(cfg: Settings, ss: seq<System>, acts: seq<Action>, i: nat, p: Payload)
      returns (j: nat)
    requires IsRun(cfg, ss, acts) && i < |ss| && p in ss[i].queue
    ensures j < i && Accepts(ss[j], acts[j], p)
    ensures p !in ss[j].queue && p in ss[j + 1].queue
  {
    assert i > 0;
    assert StepAt(cfg, ss, acts, i - 1);
    if p in ss[i - 1].queue {
      j := AcceptanceStep(cfg, ss, acts, i - 1, p);
    } else {
      j := i - 1;
    }
  }

  /** A pending or claimed row has attempts left, no row ever has more than the maximum, and a well-formed
      message is dead-lettered only once the attempts are used up. */
  lemma AttemptCountBounded(cfg: Settings, ss: seq<System>, acts: seq<Action>, i: nat, id: Id)
    requires cfg.Valid() && IsRun(cfg, ss, acts) && i < |ss| && id in ss[i].rows
    ensures ss[i].rows[id].attempts <= cfg.maxAttempts
    ensures ss[i].rows[id].status.Pending? || ss[i].rows[id].status.Claimed? ==> ss[i].rows[id].attempts < cfg.maxAttempts
    ensures ss[i].rows[id].status.DeadLetter? && WellFormed(ss[i].rows[id]) ==> ss[i].rows[id].attempts == cfg.maxAttempts
  {
    ReachableSafe(cfg, ss, acts, i);
  }

  /** Attempts are spent on well-formed messages only: in all interleavings, late writes included, an open row
      with attempts behind it is well-formed, and the first completion write for a malformed message
      dead-letters it, with the error code that says what is wrong. */
  lemma MalformedDeadLetteredAtOnce(cfg: Settings, ss: seq<System>, acts: seq<Action>, i: nat, id: Id)
    requires cfg.Valid() && IsRun(cfg, ss, acts) && i < |ss| && id in ss[i].rows
    ensures
      var row := ss[i].rows[id];
      && (row.attempts > 0 && !row.status.DeadLetter? ==> row.payload.Some? && row.supported)
      && (row.payload.None? && row.attempts > 0 ==> row.status.DeadLetter? && row.attempts == 1 && row.errorCode == PayloadDecode)
      && (row.payload.Some? && !row.supported && row.attempts > 0 ==>
            row.status.DeadLetter? && row.attempts == 1 && row.errorCode == UnsupportedMessage)
  {
    ReachableSafe(cfg, ss, acts, i);
  }

  // ---------- claims ----------

  /** Step i of a run is a claim that affects row id. */
  ghost predicate ClaimAt(cfg: Settings, ss: seq<System>, acts: seq<Action>, i: nat, id: Id)
    requires IsRun(cfg, ss, acts)
  {
    && i < |acts|
    && StepAt(cfg, ss, acts, i)
    && acts[i].Claim?
    && ClaimWins(ss[i], acts[i].call)
    && ss[i].attempts[acts[i].call].row == id
  }

  ghost function Reading(cfg: Settings, ss: seq<System>, acts: seq<Action>, i: nat, id: Id): Time
    requires IsRun(cfg, ss, acts) && ClaimAt(cfg, ss, acts, i, id)
  {
    ss[i].attempts[acts[i].call].stage.now
  }

  /** Step i is a completion write for row id. */
  ghost predicate CompletionAt(cfg: Settings, ss: seq<System>, acts: seq<Action>, i: nat, id: Id)
    requires IsRun(cfg, ss, acts)
  {
    && i < |acts|
    && StepAt(cfg, ss, acts, i)
    && acts[i].Complete?
    && ss[i].attempts[acts[i].call].row == id
  }

  ghost predicate LeasedPast(s: System, id: Id, until: Time) {
    && id < s.nextRow
    && (id in s.rows ==> s.rows[id].status.Claimed? && s.rows[id].claimUntil.Some? && s.rows[id].claimUntil.value >= until)
  }

  lemma LeasedPastStep(cfg: Settings, s: System, act: Action, id: Id, until: Time)
    requires cfg.Valid() && Enabled(s, act) && LeasedPast(s, id, until)
    requires act.Complete? ==> s.attempts[act.call].row != id
    ensures LeasedPast(Apply(cfg, s, act), id, until)
  {
    if id in RowsNext(cfg, s, act) {
      RowsAfter(cfg, s, act, id);
    }
  }

  lemma {:induction false} LeaseKept(cfg: Settings, ss: seq<System>, acts: seq<Action>, i: nat, j: nat, id: Id)
    requires cfg.Valid() && IsRun(cfg, ss, acts) && ClaimAt(cfg, ss, acts, i, id) && i < j <= |acts|
    requires forall k | i < k < j :: !CompletionAt(cfg, ss, acts, k, id)
    ensures LeasedPast(ss[j], id, Reading(cfg, ss, acts, i, id) + cfg.lease)
  {
    ReachableSafe(cfg, ss, acts, i);
    var until := Reading(cfg, ss, acts, i, id) + cfg.lease;
    if j > i + 1 {
      LeaseKept(cfg, ss, acts, i, j - 1, id);
      assert StepAt(cfg, ss, acts, j - 1);
      assert !CompletionAt(cfg, ss, acts, j - 1, id);
      LeasedPastStep(cfg, ss[j - 1], acts[j - 1], id, until);
    }
  }

  /** No claim succeeds on a terminal row, in any interleaving. */
  lemma NoClaimOnTerminal(cfg: Settings, ss: seq<System>, acts: seq<Action>, j: nat, id: Id)
    requires IsRun(cfg, ss, acts) && ClaimAt(cfg, ss, acts, j, id)
    ensures id in ss[j].rows && !Terminal(ss[j].rows[id])
  {
  }

  /** Two successful claims of a row with no completion write between them carry clock readings more than
      the lease apart, whatever the clocks of the callers do. */
  lemma ClaimsAreSpaced(cfg: Settings, ss: seq<System>, acts: seq<Action>, i: nat, j: nat, id: Id)
    requires cfg.Valid() && IsRun(cfg, ss, acts)
    requires i < j && ClaimAt(cfg, ss, acts, i, id) && ClaimAt(cfg, ss, acts, j, id)
    requires forall k | i < k < j :: !CompletionAt(cfg, ss, acts, k, id)
    ensures Reading(cfg, ss, acts, j, id) > Reading(cfg, ss, acts, i, id) + cfg.lease
  {
    LeaseKept(cfg, ss, acts, i, j, id);
  }

  // ---------- tasks ----------

  ghost predicate StartAt(cfg: Settings, ss: seq<System>, acts: seq<Action>, i: nat, t: Id)
    requires IsRun(cfg, ss, acts)
  {
    i < |acts| && StepAt(cfg, ss, acts, i) && WinsStart(ss[i], acts[i], t)
  }

  ghost predicate FinishAt(cfg: Settings, ss: seq<System>, acts: seq<Action>, i: nat, t: Id)
    requires IsRun(cfg, ss, acts)
  {
    i < |acts| && StepAt(cfg, ss, acts, i) && WritesFinish(ss[i], acts[i], t)
  }

  /** Step i lets a worker into the scan body of task t. */
  ghost predicate ScanAt(cfg: Settings, ss: seq<System>, acts: seq<Action>, i: nat, t: Id)
    requires IsRun(cfg, ss, acts)
  {
    && i < |acts|
    && StepAt(cfg, ss, acts, i)
    && acts[i].Load?
    && TaskExists(ss[i], ss[i].workers[acts[i].call].payload)
    && ss[i].workers[acts[i].call].payload.taskId == t
  }

  ghost predicate Spent(s: System, t: Id) {
    t < s.nextTask && (t in s.tasks ==> !s.tasks[t].status.TaskPending?)
  }

  /** Nobody can still enter the scan body of t: it is spent and any holder is already inside. */
  ghost predicate Entered(s: System, t: Id) {
    Spent(s, t) && forall c | c in s.workers && Holds(s.workers[c], t) :: s.workers[c].stage.Scanning?
  }

  ghost predicate Over(s: System, t: Id) {
    Spent(s, t) && forall c | c in s.workers :: !Holds(s.workers[c], t)
  }

  lemma SpentStep(cfg: Settings, s: System, act: Action, t: Id)
    requires FreshIds(s) && SingleWorker(s) && Enabled(s, act) && Spent(s, t)
    ensures Spent(Apply(cfg, s, act), t)
    ensures !WinsStart(s, act, t)
    ensures Over(s, t) ==> Over(Apply(cfg, s, act), t)
    ensures Entered(s, t) ==> Entered(Apply(cfg, s, act), t)
  {
    var s' := Apply(cfg, s, act);
    if t in s'.tasks {
      TasksAfter(s, act, t);
    }
    forall c | c in s'.workers && Holds(s'.workers[c], t)
      ensures c in s.workers && Holds(s.workers[c], t)
      ensures s.workers[c].stage.Scanning? ==> s'.workers[c].stage.Scanning?
    {
      HolderAfter(s, act, c, t);
    }
  }

  lemma {:induction false} SpentForever(cfg: Settings, ss: seq<System>, acts: seq<Action>, i: nat, j: nat, t: Id)
    requires cfg.Valid() && IsRun(cfg, ss, acts) && i <= j < |ss| && Spent(ss[i], t)
    ensures Spent(ss[j], t)
    ensures Over(ss[i], t) ==> Over(ss[j], t)
    ensures Entered(ss[i], t) ==> Entered(ss[j], t)
  {
    if i < j {
      SpentForever(cfg, ss, acts, i, j - 1, t);
      ReachableSafe(cfg, ss, acts, j - 1);
      assert StepAt(cfg, ss, acts, j - 1);
      SpentStep(cfg, ss[j - 1], acts[j - 1], t);
    }
  }

  /** However often a task is dispatched or redelivered and however many workers race: one start wins,
      one worker enters the scan body, one finish write happens. */
  lemma ScanRunsAtMostOnce(cfg: Settings, ss: seq<System>, acts: seq<Action>, i: nat, j: nat, t: Id)
    requires cfg.Valid() && IsRun(cfg, ss, acts) && i < j
    ensures !(StartAt(cfg, ss, acts, i, t) && StartAt(cfg, ss, acts, j, t))
    ensures !(ScanAt(cfg, ss, acts, i, t) && ScanAt(cfg, ss, acts, j, t))
    ensures !(FinishAt(cfg, ss, acts, i, t) && FinishAt(cfg, ss, acts, j, t))
  {
    if j < |acts| {
      assert StepAt(cfg, ss, acts, j);
      if StartAt(cfg, ss, acts, i, t) {
        StartSpends(cfg, ss, acts, i, t);
        SpentForever(cfg, ss, acts, i + 1, j, t);
      }
      if ScanAt(cfg, ss, acts, i, t) {
        ScanEnters(cfg, ss, acts, i, t);
        SpentForever(cfg, ss, acts, i + 1, j, t);
        assert Entered(ss[j], t);
        if ScanAt(cfg, ss, acts, j, t) {
          assert Holds(ss[j].workers[acts[j].call], t);
        }
      }
      if FinishAt(cfg, ss, acts, i, t) {
        FinishEnds(cfg, ss, acts, i, t);
        SpentForever(cfg, ss, acts, i + 1, j, t);
        if FinishAt(cfg, ss, acts, j, t) {
          assert Holds(ss[j].workers[acts[j].call], t);
        }
      }
    }
  }

  lemma StartSpends(cfg: Settings, ss: seq<System>, acts: seq<Action>, i: nat, t: Id)
    requires cfg.Valid() && IsRun(cfg, ss, acts) && StartAt(cfg, ss, acts, i, t)
    ensures Spent(ss[i + 1], t)
  {
    ReachableSafe(cfg, ss, acts, i);
  }

  lemma ScanEnters(cfg: Settings, ss: seq<System>, acts: seq<Action>, i: nat, t: Id)
    requires cfg.Valid() && IsRun(cfg, ss, acts) && ScanAt(cfg, ss, acts, i, t)
    ensures Entered(ss[i + 1], t)
  {
    ReachableSafe(cfg, ss, acts, i);
    SingleWorkerStep(cfg, ss[i], acts[i]);
    assert Holds(ss[i + 1].workers[acts[i].call], t);
  }

  lemma FinishEnds(cfg: Settings, ss: seq<System>, acts: seq<Action>, i: nat, t: Id)
    requires cfg.Valid() && IsRun(cfg, ss, acts) && FinishAt(cfg, ss, acts, i, t)
    ensures Over(ss[i + 1], t)
  {
    ReachableSafe(cfg, ss, acts, i);
    assert Holds(ss[i].workers[acts[i].call], t);
  }

  function Rank(status: TaskStatus): nat {
    match status case TaskPending => 0 case TaskRunning => 1 case _ => 2
  }

  /** A task's status only moves pending -> running -> one final status, which then stays. */
  lemma {:induction false} StatusMovesForward(cfg: Settings, ss: seq<System>, acts: seq<Action>, i: nat, j: nat, t: Id)
    requires cfg.Valid() && IsRun(cfg, ss, acts) && i <= j < |ss| && t in ss[i].tasks && t in ss[j].tasks
    ensures Rank(ss[i].tasks[t].status) <= Rank(ss[j].tasks[t].status)
    ensures Rank(ss[i].tasks[t].status) == Rank(ss[j].tasks[t].status) ==> ss[i].tasks[t].status == ss[j].tasks[t].status
    ensures j == i + 1 ==> Rank(ss[j].tasks[t].status) <= Rank(ss[i].tasks[t].status) + 1
  {
    if i < j {
      ReachableFresh(cfg, ss, acts, i);
      NextTaskGrows(cfg, ss, acts, i, j - 1);
      StatusStep(cfg, ss, acts, j - 1, t);
      StatusMovesForward(cfg, ss, acts, i, j - 1, t);
    }
  }

  /** One step of a run keeps a task's status or moves it one place forward. */
  lemma StatusStep(cfg: Settings, ss: seq<System>, acts: seq<Action>, i: nat, t: Id)
    requires cfg.Valid() && IsRun(cfg, ss, acts) && i < |acts| && t < ss[i].nextTask && t in ss[i + 1].tasks
    ensures t in ss[i].tasks
    ensures
      var before, after := ss[i].tasks[t].status, ss[i + 1].tasks[t].status;
      before == after || Rank(after) == Rank(before) + 1
  {
    ReachableSafe(cfg, ss, acts, i);
    assert StepAt(cfg, ss, acts, i);
    TasksAfter(ss[i], acts[i], t);
  }

  lemma {:induction false} NextTaskGrows(cfg: Settings, ss: seq<System>, acts: seq<Action>, i: nat, j: nat)
    requires IsRun(cfg, ss, acts) && i <= j < |ss|
    ensures ss[i].nextTask <= ss[j].nextTask
  {
    if i < j {
      NextTaskGrows(cfg, ss, acts, i, j - 1);
      assert StepAt(cfg, ss, acts, j - 1);
    }
  }

  // ---------- deletion ----------

  /** The deleting transaction takes the task and every message with its ids, and nothing else; when the task is
      gone already it does nothing. */
  lemma DeletionCascades(cfg: Settings, s: System, act: Action)
    requires act.DeleteTask? && Enabled(s, act)
    ensures
      var p, s' := s.deletions[act.call], Apply(cfg, s, act);
      if p.taskId in s.tasks && s.tasks[p.taskId].orgId == p.orgId then
        && s'.tasks.Keys == s.tasks.Keys - {p.taskId} && (forall t | t in s'.tasks :: s'.tasks[t] == s.tasks[t])
        && (forall id | id in s'.rows :: id in s.rows && s'.rows[id] == s.rows[id])
        && (forall id | id in s.rows :: id in s'.rows <==> s.rows[id].taskId != p.taskId || s.rows[id].orgId != p.orgId)
      else s'.tasks == s.tasks && s'.rows == s.rows
  {
  }

  /** Step j checks a task before deleting it, and finds it pending or failed. */
  ghost predicate ChecksAt(ss: seq<System>, acts: seq<Action>, j: nat, c: Id, p: Payload) {
    && j < |acts| && j < |ss| && acts[j] == CheckDelete(c, p.taskId, p.orgId)
    && p.taskId in ss[j].tasks && ss[j].tasks[p.taskId].orgId == p.orgId
    && (ss[j].tasks[p.taskId].status.TaskPending? || ss[j].tasks[p.taskId].status.TaskFailed?)
  }

  /** Every deletion was preceded by its own check, which found the task pending or failed. The check and the
      deletion are two steps, so the task may be running by the time it is deleted. */
  lemma {:induction false} DeletionWasChecked(cfg: Settings, ss: seq<System>, acts: seq<Action>, i: nat, c: Id) returns (j: nat)
    requires IsRun(cfg, ss, acts) && i < |ss| && c in ss[i].deletions
    ensures j < i && ChecksAt(ss, acts, j, c, ss[i].deletions[c])
  {
    assert i > 0;
    assert StepAt(cfg, ss, acts, i - 1);
    if c in ss[i - 1].deletions && acts[i - 1] != CheckDelete(c, ss[i].deletions[c].taskId, ss[i].deletions[c].orgId) {
      j := DeletionWasChecked(cfg, ss, acts, i - 1, c);
    } else {
      j := i - 1;
    }
  }

  lemma MessageGoesWithTask(cfg: Settings, s: System, act: Action, t: Id)
    requires FreshIds(s) && CopiesAgree(s) && Enabled(s, act) && t in s.origins
    requires t in s.tasks || s.origins[t].row !in s.rows
    requires t !in TasksNext(s, act)
    ensures s.origins[t].row !in RowsNext(cfg, s, act)
  {
    var id := s.origins[t].row;
    assert id in s.rows ==> ServiceMessage(s.rows[id], t, s.origins[t].orgId);
    if id in RowsNext(cfg, s, act) {
      RowsAfter(cfg, s, act, id);
    }
  }

  /** In all interleavings, the message of a deleted task is gone with it, for good: no late write of a relay
      and no later step brings it back. */
  lemma {:induction false} DeletedTakesMessage(cfg: Settings, ss: seq<System>, acts: seq<Action>, i: nat, t: Id)
    requires cfg.Valid() && IsRun(cfg, ss, acts) && i < |ss| && t in ss[i].origins && t !in ss[i].tasks
    ensures ss[i].origins[t].row !in ss[i].rows
  {
    assert i > 0;
    assert StepAt(cfg, ss, acts, i - 1);
    ReachableSafe(cfg, ss, acts, i - 1);
    assert t in ss[i - 1].origins;
    if t !in ss[i - 1].tasks {
      DeletedTakesMessage(cfg, ss, acts, i - 1, t);
    }
    MessageGoesWithTask(cfg, ss[i - 1], acts[i - 1], t);
  }
}
