/**
 Runs that show what the hypotheses of the theorems about lease-respecting runs are for: each breaks the
 conclusion once one hypothesis is dropped.
 */
module Witnesses {
  import opened Common
  import opened Outbox
  import opened Protocol
  import opened Lease
  import opened Attempts
  import opened LateWrites
  import opened Traces

  /** A relay that outlives its lease undoes the work of the relay that replaced it: call 1 claims at 0, call
      2 reclaims after the lease and dispatches, then the late retry write of call 1 reopens the row. The
      reopened row is pending although its task was accepted, and its retained_until is still set. */
  lemma LateWriteReopensRow(cfg: Settings) returns (ss: seq<System>, acts: seq<Action>, i: nat, j: nat)
    requires cfg.Valid() && cfg.maxAttempts > 1
    ensures IsRun(cfg, ss, acts) && i < j < |ss|
    ensures 1 in ss[i].rows && ss[i].rows[1].status.Dispatched?
    ensures 1 in ss[j].rows && ss[j].rows[1].status.Pending? && ss[j].rows[1].retainedUntil.Some?
    ensures ss[j].rows[1].payload.Some? && ss[j].rows[1].payload.value in ss[j].queue
  {
    ss, acts := Extend(cfg, [INIT], [], CreateTask(1));
    ss, acts := SoloClaim(cfg, ss, acts, 1, 1, 0);
    ss, acts := SoloClaim(cfg, ss, acts, 2, 1, cfg.lease + 1);
    ss, acts := SoloComplete(cfg, ss, acts, 2, Accepted);
    i := |ss| - 1;
    ss, acts := SoloComplete(cfg, ss, acts, 1, Failed(DispatchFailed));
    j := |ss| - 1;
  }

  /** A relay that dies after a failed hand-off leaves no trace in attempt_count: with a maximum of one attempt,
      the message is dead-lettered with attempt_count 1 after two failed hand-offs, in a lease-respecting run
      with read and claim as one step. */
  lemma CrashHidesFailure(cfg: Settings) returns (t: Trace)
    requires cfg.Valid() && cfg.maxAttempts == 1
    ensures LeaseRun(cfg, t.ss, t.acts, t.ws) && FreshClaims(cfg, t.ss, t.acts)
    ensures 1 in End(t).rows && End(t).rows[1].status.DeadLetter? && End(t).rows[1].attempts == 1
    ensures Count(cfg, t.ss, t.acts, 1, HandOffFailed, |t.acts|) >= 2
  {
    t := NewTask(cfg, 0);
    t := ReadAndClaim(cfg, t, 1, 1, 0);
    t := HandOffFails(cfg, t, 1, 0);
    var i := |t.acts|;
    t := Then(cfg, t, Crash(1), 0);
    t := ReadAndClaim(cfg, t, 2, 1, cfg.lease + 1);
    t := FailAndWrite(cfg, t, 2, cfg.lease + 1);
    TimelyIsLeaseRun(cfg, t);
    assert StepAt(cfg, t.ss, t.acts, i);
    CountGrows(cfg, t.ss, t.acts, 1, Lost, i, |t.acts|);
    DeadLetterAfterMaxFailures(cfg, t.ss, t.acts, t.ws, |t.acts|, 1);
  }

  /** The backoff theorem asks that claims do not run ahead of the table. Here call 1
      read the new row, call 4 read it with two attempts; call 1 then sets it back to one attempt, and call 4,
      claiming at i, takes it from one to three. The next attempt, at j, comes after one wait instead of two,
      in a lease-respecting run. */
  lemma CopyAheadSkipsBackoff(cfg: Settings) returns (t: Trace, i: nat, j: nat)
    requires cfg.Valid() && cfg.maxAttempts > 3
    ensures LeaseRun(cfg, t.ss, t.acts, t.ws)
    ensures i < j && ClaimAt(cfg, t.ss, t.acts, i, 1) && ClaimAt(cfg, t.ss, t.acts, j, 1)
    ensures !CopiesBehind(t.ss[i], 1) && !KeepsInStep(t.ss[i], t.acts[i])
    ensures Reading(cfg, t.ss, t.acts, j, 1) - Reading(cfg, t.ss, t.acts, i, 1)
          < BackoffSum(t.ss[j].rows[1].attempts) - BackoffSum(t.ss[i].rows[1].attempts)
  {
    var t0;
    t0, i := OneToThree(cfg);
    j := |t0.acts| + 2;
    t := ReadAndClaim(cfg, t0, 5, 1, 60 * SECOND);
    TimelyIsLeaseRun(cfg, t);
    WinsLater(cfg, t0, t, i, 4, 1, 45 * SECOND, map[1 := FailedRow(1, 30 * SECOND)]);
    TwoWaits();
  }

  lemma TwoWaits()
    ensures BackoffSum(3) - BackoffSum(1) == 30 * SECOND
  {
    BackoffSumClosedForm(1);
    BackoffSumClosedForm(3);
  }

  /** Call 4 makes the next attempt, with its copy that has two attempts. */
  lemma OneToThree(cfg: Settings) returns (t: Trace, i: nat)
    requires cfg.Valid() && cfg.maxAttempts > 3
    ensures Clocked(cfg, t) && Timely(cfg, t) && NotBefore(t, 60 * SECOND) && i < |t.acts|
    ensures End(t).attempts == map[] && End(t).rows == map[1 := FailedRow(3, 45 * SECOND)]
    ensures WinsAt(cfg, t, i, 4, 1, 45 * SECOND, map[1 := FailedRow(1, 30 * SECOND)]) && t.ss[i].attempts[4].msg.attempts == 2
  {
    var t0 := SetBackToOne(cfg);
    i := |t0.acts| + 1;
    var t1 := StampAndClaim(cfg, t0, 4, 45 * SECOND);
    assert t1.ss[i].attempts[4].msg.attempts == 2;
    t := FailAndWrite(cfg, t1, 4, 45 * SECOND);
    WinsLater(cfg, t1, t, i, 4, 1, 45 * SECOND, End(t0).rows);
  }

  /** Call 1, with its old copy, makes the next attempt and writes attempt count one. */
  lemma SetBackToOne(cfg: Settings) returns (t: Trace)
    requires cfg.Valid() && cfg.maxAttempts > 3
    ensures Clocked(cfg, t) && Timely(cfg, t) && NotBefore(t, 45 * SECOND)
    ensures End(t).rows == map[1 := FailedRow(1, 30 * SECOND)]
    ensures End(t).attempts == map[4 := Attempt(1, FailedRow(2, 15 * SECOND), HasRead)]
  {
    t := TwoFailuresAndTwoReaders(cfg);
    t := StampAndClaim(cfg, t, 1, 30 * SECOND);
    t := FailAndWrite(cfg, t, 1, 30 * SECOND);
  }

  /** Row 1 has failed twice; call 1 read it before the first attempt and call 4 after the second. */
  lemma TwoFailuresAndTwoReaders(cfg: Settings) returns (t: Trace)
    requires cfg.Valid() && cfg.maxAttempts > 3
    ensures Clocked(cfg, t) && Timely(cfg, t) && NotBefore(t, 30 * SECOND)
    ensures
      && End(t).rows == map[1 := FailedRow(2, 15 * SECOND)]
      && End(t).attempts == map[1 := Attempt(1, ROW, HasRead), 4 := Attempt(1, FailedRow(2, 15 * SECOND), HasRead)]
  {
    t := NewTask(cfg, 0);
    t := Then(cfg, t, ReadRow(1, 1), 0);
    t := FailOnce(cfg, t, 2, 1, 0);
    t := FailOnce(cfg, t, 3, 1, 15 * SECOND);
    t := Then(cfg, t, ReadRow(4, 1), 15 * SECOND);
  }

  /** An attempt held by call c on row 1, claimed at `now` with n failures written down before. */
  function Holding(cfg: Settings, row: Row, now: Time): Attempt {
    Attempt(1, ClaimWrite(cfg, row, now), Held(now))
  }

  /** Call 1 has outlived its lease; call 2 has failed since; call 3 holds the row. */
  lemma OneLateOneHolder(cfg: Settings) returns (t: Trace)
    requires cfg.Valid() && cfg.maxAttempts > 2
    ensures
      var t1, t2 := cfg.lease + 1, cfg.lease + 1 + 15 * SECOND;
      && Clocked(cfg, t) && Fresh(cfg, t) && NotBefore(t, t2)
      && End(t).rows == map[1 := ClaimWrite(cfg, FailedRow(1, t1), t2)]
      && End(t).attempts == map[1 := Holding(cfg, ROW, 0), 3 := Holding(cfg, FailedRow(1, t1), t2)]
  {
    var t1, t2 := cfg.lease + 1, cfg.lease + 1 + 15 * SECOND;
    t := NewTask(cfg, 0);
    t := ReadAndClaim(cfg, t, 1, 1, 0);
    t := FailOnce(cfg, t, 2, 1, t1);
    t := ReadAndClaim(cfg, t, 3, 1, t2);
  }

  /** Two calls hold claims of row 1 with the same reading t2 = lease + 1 ns + 15 s and the same attempt count:
      the late write of call 1, whose lease ran out long ago, let call 4 in beside call 3. */
  lemma TwoHoldersOneReading(cfg: Settings) returns (t: Trace)
    requires cfg.Valid() && cfg.maxAttempts > 2
    ensures
      var t1, t2 := cfg.lease + 1, cfg.lease + 1 + 15 * SECOND;
      && Clocked(cfg, t) && Fresh(cfg, t) && NotBefore(t, t2)
      && End(t).rows == map[1 := ClaimWrite(cfg, FailedRow(1, 0), t2)]
      && End(t).attempts == map[3 := Holding(cfg, FailedRow(1, t1), t2), 4 := Holding(cfg, FailedRow(1, 0), t2)]
  {
    var t2 := cfg.lease + 1 + 15 * SECOND;
    t := OneLateOneHolder(cfg);
    t := FailAndWrite(cfg, t, 1, t2);
    t := ReadAndClaim(cfg, t, 4, 1, t2);
  }

  /** Call 3 writes its failure, and call 5 claims at step i while call 4 is still out. */
  lemma ClaimBeforeLateWrite(cfg: Settings) returns (t: Trace, i: nat)
    requires cfg.Valid() && cfg.maxAttempts > 2
    ensures
      var t2, t3 := cfg.lease + 1 + 15 * SECOND, cfg.lease + 1 + 30 * SECOND;
      && Clocked(cfg, t) && Fresh(cfg, t) && NotBefore(t, t3)
      && End(t).rows == map[1 := ClaimWrite(cfg, FailedRow(2, t2), t3)]
      && End(t).attempts == map[4 := Holding(cfg, FailedRow(1, 0), t2), 5 := Holding(cfg, FailedRow(2, t2), t3)]
      && |t.acts| == i + 1 && WinsAt(cfg, t, i, 5, 1, t3, map[1 := FailedRow(2, t2)])
  {
    var t2, t3 := cfg.lease + 1 + 15 * SECOND, cfg.lease + 1 + 30 * SECOND;
    t := TwoHoldersOneReading(cfg);
    t := FailAndWrite(cfg, t, 3, t2);
    assert End(t).rows == map[1 := FailedRow(2, t2)];
    i := |t.acts| + 2;
    t := ReadAndClaim(cfg, t, 5, 1, t3);
  }

  /** FindsOwnClaim asks that no other claim carries the same reading. Here call 5 claims at i; then call 4
      writes its failure, which reads just like the one call 3 had written, and call 6 claims with call 5's
      reading. Call 5 is about to write and finds the row as its own claim left it, though both touched it,
      in a run whose clock never goes back and in which read and claim are one step. */
  lemma SameReadingHidesOthers(cfg: Settings) returns (t: Trace, i: nat)
    requires cfg.Valid() && cfg.maxAttempts > 2
    ensures Clocked(cfg, t) && Fresh(cfg, t) && i + 1 < |t.ss|
    ensures ClaimAt(cfg, t.ss, t.acts, i, 1) && t.acts[i].call == 5
    ensures 5 in End(t).attempts && End(t).attempts[5].stage.HandedOff? && 6 in End(t).attempts
    ensures 1 in End(t).rows && 1 in t.ss[i + 1].rows && End(t).rows[1] == t.ss[i + 1].rows[1]
    ensures !Untouched(cfg, t.ss, t.acts, i + 1, |t.acts|, 1)
  {
    var t3 := cfg.lease + 1 + 30 * SECOND;
    var t0, t4, rows := ClaimedTwice(cfg);
    i := |t0.acts| - 1;
    var k := |t4.acts| - 1;
    t := HandOffFails(cfg, t4, 5, t3);
    WinsLater(cfg, t0, t, i, 5, 1, t3, rows);
    WinsLater(cfg, t4, t, k, 6, 1, t3, rows);
    assert Touches(cfg, t.ss, t.acts, k, 1);
  }

  /** Call 5 claims in the last step of t0; call 4 writes its failure; call 6 claims in the last step of t. Both
      find, and leave, the same table. */
  lemma ClaimedTwice(cfg: Settings) returns (t0: Trace, t: Trace, rows: map<Id, Row>)
    requires cfg.Valid() && cfg.maxAttempts > 2
    ensures
      var t3 := cfg.lease + 1 + 30 * SECOND;
      && 0 < |t0.acts| < |t.acts| && Fresh(cfg, t) && GoesOn(cfg, t0, t, t3) && |t0.ss| == |t0.acts| + 1
      && WinsAt(cfg, t0, |t0.acts| - 1, 5, 1, t3, rows) && WinsAt(cfg, t, |t.acts| - 1, 6, 1, t3, rows)
      && End(t).rows == End(t0).rows && 1 in End(t).rows
      && {5, 6} <= End(t).attempts.Keys && End(t).attempts[5].stage.Held? && WellFormed(End(t).attempts[5].msg)
  {
    var t3 := cfg.lease + 1 + 30 * SECOND;
    rows := map[1 := FailedRow(2, cfg.lease + 1 + 15 * SECOND)];
    var i;
    t0, i := ClaimBeforeLateWrite(cfg);
    var t1 := FailAndWrite(cfg, t0, 4, t3);
    assert End(t1).rows == rows;
    t := ReadAndClaim(cfg, t1, 6, 1, t3);
  }
}
