/**
 Building runs step by step, with their clock. The runs that show what the hypotheses of the theorems are
 for are put together from these pieces.
 */
module Traces {
  import opened Common
  import opened Outbox
  import opened Protocol
  import opened Lease
  import opened Attempts

  datatype Trace = Trace(ss: seq<System>, acts: seq<Action>, ws: seq<Time>)

  /** A step that reads the clock reads w. */
  predicate ReadsClock(act: Action, w: Time) {
    (act.Stamp? ==> act.now == w) && (act.SelectExpired? ==> act.now == w)
  }

  predicate ClockedAt(t: Trace, i: nat)
    requires i < |t.acts| == |t.ws|
  {
    ReadsClock(t.acts[i], t.ws[i]) && (i + 1 < |t.ws| ==> t.ws[i] <= t.ws[i + 1])
  }

  /** A run with one clock that never goes back. Nothing is said about leases. */
  ghost predicate Clocked(cfg: Settings, t: Trace) {
    && cfg.Valid()
    && IsRun(cfg, t.ss, t.acts)
    && |t.ws| == |t.acts|
    && (forall i | 0 <= i < |t.acts| :: ClockedAt(t, i))
  }

  function End(t: Trace): System
    requires |t.ss| > 0
  {
    t.ss[|t.ss| - 1]
  }

  predicate NotBefore(t: Trace, w: Time) {
    t.ws == [] || t.ws[|t.ws| - 1] <= w
  }

  /** t' goes on from t, and the clock shows w at its end. */
  ghost predicate GoesOn(cfg: Settings, t: Trace, t': Trace, w: Time) {
    && Clocked(cfg, t')
    && t.ss <= t'.ss && t.acts <= t'.acts
    && t'.ws != [] && t'.ws[|t'.ws| - 1] == w
  }

  /** Every step so far is on time. */
  ghost predicate Timely(cfg: Settings, t: Trace) {
    |t.ss| == |t.acts| + 1 && |t.ws| == |t.acts| && forall i | 0 <= i < |t.acts| :: TimelyAt(cfg, t.ss, t.acts, t.ws, i)
  }

  /** Every claim so far found the row as the call had read it. */
  ghost predicate Fresh(cfg: Settings, t: Trace) {
    |t.ss| == |t.acts| + 1 && forall i | 0 <= i < |t.acts| :: FreshClaimAt(cfg, t.ss, t.acts, i)
  }

  lemma {:induction false} ClockNeverGoesBack(cfg: Settings, t: Trace, i: nat, j: nat)
    requires Clocked(cfg, t) && i <= j < |t.ws|
    ensures t.ws[i] <= t.ws[j]
  {
    if i < j {
      ClockNeverGoesBack(cfg, t, i, j - 1);
      assert ClockedAt(t, j - 1);
    }
  }

  lemma TimelyIsLeaseRun(cfg: Settings, t: Trace)
    requires Clocked(cfg, t) && Timely(cfg, t)
    ensures LeaseRun(cfg, t.ss, t.acts, t.ws)
  {
    forall i, j | 0 <= i <= j < |t.ws| ensures t.ws[i] <= t.ws[j] {
      ClockNeverGoesBack(cfg, t, i, j);
    }
  }

  const START := Trace([INIT], [], [])

  lemma SetTwice<K, V>(m: map<K, V>, k: K, x: V, y: V)
    ensures m[k := x][k := y] == m[k := y]
  {
  }

  lemma Then(cfg: Settings, t: Trace, act: Action, w: Time) returns (t': Trace)
    requires Clocked(cfg, t) && Enabled(End(t), act) && ReadsClock(act, w) && NotBefore(t, w)
    ensures GoesOn(cfg, t, t', w) && End(t') == Apply(cfg, End(t), act)
    ensures |t'.acts| == |t.acts| + 1 && t'.acts[|t.acts|] == act
    ensures Timely(cfg, t) && OnTime(cfg, End(t), act, w) ==> Timely(cfg, t')
    ensures Fresh(cfg, t) && FreshClaim(End(t), act) ==> Fresh(cfg, t')
  {
    t' := Trace(t.ss + [Apply(cfg, End(t), act)], t.acts + [act], t.ws + [w]);
    forall i | 0 <= i < |t'.acts| ensures StepAt(cfg, t'.ss, t'.acts, i) && ClockedAt(t', i) {
      assert i < |t.acts| ==> StepAt(cfg, t.ss, t.acts, i) && ClockedAt(t, i);
    }
    if Timely(cfg, t) && OnTime(cfg, End(t), act, w) {
      ThenTimely(cfg, t, act, w, t');
    }
    if Fresh(cfg, t) && FreshClaim(End(t), act) {
      ThenFresh(cfg, t, act, t');
    }
  }

  lemma ThenTimely(cfg: Settings, t: Trace, act: Action, w: Time, t': Trace)
    requires Timely(cfg, t) && Enabled(End(t), act) && OnTime(cfg, End(t), act, w) && Clocked(cfg, t')
    requires t' == Trace(t.ss + [Apply(cfg, End(t), act)], t.acts + [act], t.ws + [w])
    ensures Timely(cfg, t')
  {
    forall i | 0 <= i < |t'.acts| ensures TimelyAt(cfg, t'.ss, t'.acts, t'.ws, i) {
      assert i < |t.acts| ==> TimelyAt(cfg, t.ss, t.acts, t.ws, i);
    }
  }

  lemma ThenFresh(cfg: Settings, t: Trace, act: Action, t': Trace)
    requires Fresh(cfg, t) && Enabled(End(t), act) && FreshClaim(End(t), act) && Clocked(cfg, t')
    requires t'.ss == t.ss + [Apply(cfg, End(t), act)] && t'.acts == t.acts + [act]
    ensures Fresh(cfg, t')
  {
    forall i | 0 <= i < |t'.acts| ensures FreshClaimAt(cfg, t'.ss, t'.acts, i) {
      assert i < |t.acts| ==> FreshClaimAt(cfg, t.ss, t.acts, i);
    }
  }

  /** The state once a call has read row id, and the clock at w. */
  lemma Stamping(cfg: Settings, t: Trace, c: Id, id: Id, w: Time) returns (t': Trace)
    requires Clocked(cfg, t) && NotBefore(t, w)
    requires c !in End(t).attempts && id in End(t).rows && IsDispatchable(End(t).rows[id], w)
    ensures GoesOn(cfg, t, t', w) && |t'.acts| == |t.acts| + 2
    ensures End(t') == End(t).(attempts := End(t).attempts[c := Attempt(id, End(t).rows[id], Stamped(w))])
    ensures Timely(cfg, t) ==> Timely(cfg, t')
    ensures Fresh(cfg, t) ==> Fresh(cfg, t')
  {
    var t1 := Then(cfg, t, ReadRow(c, id), w);
    t' := Then(cfg, t1, Stamp(c, w), w);
    SetTwice(End(t).attempts, c, Attempt(id, End(t).rows[id], HasRead), Attempt(id, End(t).rows[id], Stamped(w)));
  }

  /** At step i call c wins row id with reading `now`, the table showing `rows`. */
  ghost predicate WinsAt(cfg: Settings, t: Trace, i: nat, c: Id, id: Id, now: Time, rows: map<Id, Row>) {
    && IsRun(cfg, t.ss, t.acts)
    && ClaimAt(cfg, t.ss, t.acts, i, id)
    && t.acts[i].call == c
    && Reading(cfg, t.ss, t.acts, i, id) == now
    && t.ss[i].rows == rows
  }

  lemma WinsLater(cfg: Settings, t: Trace, t': Trace, i: nat, c: Id, id: Id, now: Time, rows: map<Id, Row>)
    requires WinsAt(cfg, t, i, c, id, now, rows) && Clocked(cfg, t') && t.ss <= t'.ss && t.acts <= t'.acts
    ensures WinsAt(cfg, t', i, c, id, now, rows) && t'.ss[i] == t.ss[i] && t'.ss[i + 1] == t.ss[i + 1]
  {
    assert StepAt(cfg, t'.ss, t'.acts, i);
  }

  /** A claim that wins. It is fresh when the row is still as the call read it. */
  lemma Claiming(cfg: Settings, t: Trace, c: Id, w: Time) returns (t': Trace)
    requires Clocked(cfg, t) && NotBefore(t, w)
    requires c in End(t).attempts && End(t).attempts[c].stage.Stamped? && ClaimWins(End(t), c)
    ensures GoesOn(cfg, t, t', w)
    ensures |t'.acts| == |t.acts| + 1 && WinsAt(cfg, t', |t.acts|, c, End(t).attempts[c].row, End(t).attempts[c].stage.now, End(t).rows)
    ensures
      var a := End(t).attempts[c];
      var row, msg := ClaimWrite(cfg, End(t).rows[a.row], a.stage.now), ClaimWrite(cfg, a.msg, a.stage.now);
      End(t') == End(t).(rows := End(t).rows[a.row := row], attempts := End(t).attempts[c := Attempt(a.row, msg, Held(a.stage.now))])
    ensures Timely(cfg, t) ==> Timely(cfg, t')
    ensures Fresh(cfg, t) && FreshClaim(End(t), Claim(c)) ==> Fresh(cfg, t')
  {
    t' := Then(cfg, t, Claim(c), w);
    assert StepAt(cfg, t'.ss, t'.acts, |t.acts|);
  }

  /** A call that has read its row reads the clock at w and wins its claim. */
  lemma StampAndClaim(cfg: Settings, t: Trace, c: Id, w: Time) returns (t': Trace)
    requires Clocked(cfg, t) && NotBefore(t, w) && c in End(t).attempts && End(t).attempts[c].stage.HasRead?
    requires
      var a := End(t).attempts[c];
      IsDispatchable(a.msg, w) && a.row in End(t).rows && ClaimMatches(a.msg, End(t).rows[a.row], w)
    ensures GoesOn(cfg, t, t', w)
    ensures |t'.acts| == |t.acts| + 2 && WinsAt(cfg, t', |t.acts| + 1, c, End(t).attempts[c].row, w, End(t).rows)
    ensures t'.ss[|t.acts| + 1].attempts == End(t).attempts[c := End(t).attempts[c].(stage := Stamped(w))]
    ensures
      var a := End(t).attempts[c];
      var row, msg := ClaimWrite(cfg, End(t).rows[a.row], w), ClaimWrite(cfg, a.msg, w);
      End(t') == End(t).(rows := End(t).rows[a.row := row], attempts := End(t).attempts[c := Attempt(a.row, msg, Held(w))])
    ensures Timely(cfg, t) ==> Timely(cfg, t')
  {
    var t1 := Then(cfg, t, Stamp(c, w), w);
    t' := Claiming(cfg, t1, c, w);
    var a := End(t).attempts[c];
    SetTwice(End(t).attempts, c, a.(stage := Stamped(w)), Attempt(a.row, ClaimWrite(cfg, a.msg, w), Held(w)));
  }

  /** A call reads the row, the clock at w, and claims, with nothing in between. */
  lemma ReadAndClaim(cfg: Settings, t: Trace, c: Id, id: Id, w: Time) returns (t': Trace)
    requires Clocked(cfg, t) && NotBefore(t, w)
    requires c !in End(t).attempts && id in End(t).rows && IsDispatchable(End(t).rows[id], w)
    ensures GoesOn(cfg, t, t', w)
    ensures |t'.acts| == |t.acts| + 3 && WinsAt(cfg, t', |t.acts| + 2, c, id, w, End(t).rows)
    ensures
      var row := ClaimWrite(cfg, End(t).rows[id], w);
      End(t') == End(t).(rows := End(t).rows[id := row], attempts := End(t).attempts[c := Attempt(id, row, Held(w))])
    ensures Timely(cfg, t) ==> Timely(cfg, t')
    ensures Fresh(cfg, t) ==> Fresh(cfg, t')
  {
    var t1 := Stamping(cfg, t, c, id, w);
    t' := Claiming(cfg, t1, c, w);
    var row := End(t).rows[id];
    SetTwice(End(t).attempts, c, Attempt(id, row, Stamped(w)), Attempt(id, ClaimWrite(cfg, row, w), Held(w)));
  }

  /** The hand-off of call c fails, the queue having taken nothing. */
  lemma HandOffFails(cfg: Settings, t: Trace, c: Id, w: Time) returns (t': Trace)
    requires Clocked(cfg, t) && NotBefore(t, w) && c in End(t).attempts && End(t).attempts[c].stage.Held?
    requires WellFormed(End(t).attempts[c].msg)
    ensures GoesOn(cfg, t, t', w) && |t'.acts| == |t.acts| + 1
    ensures
      var a := End(t).attempts[c];
      End(t') == End(t).(attempts := End(t).attempts[c := a.(stage := HandedOff(a.stage.now, Failed(DispatchFailed)))])
    ensures Timely(cfg, t) ==> Timely(cfg, t')
    ensures Fresh(cfg, t) ==> Fresh(cfg, t')
  {
    t' := Then(cfg, t, HandOff(c, Failed(DispatchFailed), false), w);
  }

  /** The hand-off of call c fails and the failure is written down, leaving a retry or a dead letter. */
  lemma FailAndWrite(cfg: Settings, t: Trace, c: Id, w: Time) returns (t': Trace)
    requires Clocked(cfg, t) && NotBefore(t, w) && c in End(t).attempts && End(t).attempts[c].stage.Held?
    requires WellFormed(End(t).attempts[c].msg) && End(t).attempts[c].row in End(t).rows
    ensures GoesOn(cfg, t, t', w) && |t'.acts| == |t.acts| + 2
    ensures
      var a := End(t).attempts[c];
      && End(t').rows == End(t).rows[a.row := CompletionWrite(cfg, a.msg, a.stage.now, Failed(DispatchFailed), End(t).rows[a.row])]
      && End(t').attempts == End(t).attempts - {c}
    ensures Timely(cfg, t) && w <= End(t).attempts[c].stage.now + cfg.lease ==> Timely(cfg, t')
    ensures Fresh(cfg, t) ==> Fresh(cfg, t')
  {
    var t1 := HandOffFails(cfg, t, c, w);
    t' := Then(cfg, t1, Complete(c), w);
  }

  /** One whole failed attempt, made at w with nothing in between, that leaves a retry. */
  lemma FailOnce(cfg: Settings, t: Trace, c: Id, id: Id, w: Time) returns (t': Trace)
    requires Clocked(cfg, t) && NotBefore(t, w)
    requires c !in End(t).attempts && id in End(t).rows && IsDispatchable(End(t).rows[id], w)
    requires WellFormed(End(t).rows[id]) && End(t).rows[id].attempts + 1 < cfg.maxAttempts
    ensures GoesOn(cfg, t, t', w) && |t'.acts| == |t.acts| + 5
    ensures
      var row := ClaimWrite(cfg, End(t).rows[id], w);
      End(t').rows == End(t).rows[id := RetryWrite(row, w, DispatchFailed, row)] && End(t').attempts == End(t).attempts
    ensures Timely(cfg, t) ==> Timely(cfg, t')
    ensures Fresh(cfg, t) ==> Fresh(cfg, t')
  {
    var t1 := ReadAndClaim(cfg, t, c, id, w);
    t' := FailAndWrite(cfg, t1, c, w);
    assert End(t').attempts == End(t).attempts;
  }

  /** The message of the first task, row 1. */
  const ROW := NewRow(1, 1, true, Some(Payload(1, 1)))

  /** That row once its n-th failure, of an attempt made at `now`, is written down. */
  function FailedRow(n: nat, now: Time): Row {
    ROW.(attempts := n, nextAttemptAt := Some(now + Backoff(n)), errorCode := DispatchFailed, lastAttemptAt := Some(now))
  }

  /** A task with its message. */
  lemma NewTask(cfg: Settings, w: Time) returns (t: Trace)
    requires cfg.Valid()
    ensures Clocked(cfg, t) && NotBefore(t, w) && Timely(cfg, t) && Fresh(cfg, t)
    ensures End(t).attempts == map[] && End(t).rows == map[1 := ROW]
  {
    t := Then(cfg, START, CreateTask(1), w);
  }
}
