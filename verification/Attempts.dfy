/**
 What attempt_count counts, and how far apart the attempts on a message lie, in lease-respecting runs.
 */
module Attempts {
  import opened Common
  import opened Outbox
  import opened Protocol
  import opened Lease
  import LateWrites

  // ---------- read and claim as one step ----------

  /** Read and claim as one step: whenever a claim wins, the row is still as the call read it. */
  ghost predicate FreshClaims(cfg: Settings, ss: seq<System>, acts: seq<Action>)
    requires IsRun(cfg, ss, acts)
  {
    forall i | 0 <= i < |acts| :: FreshClaimAt(cfg, ss, acts, i)
  }

  predicate FreshClaimAt(cfg: Settings, ss: seq<System>, acts: seq<Action>, i: nat)
    requires i < |acts| && |ss| == |acts| + 1
  {
    StepAt(cfg, ss, acts, i) && FreshClaim(ss[i], acts[i])
  }

  predicate FreshClaim(s: System, act: Action)
    requires Enabled(s, act)
  {
    act.Claim? && ClaimWins(s, act.call) ==> s.rows[s.attempts[act.call].row] == s.attempts[act.call].msg
  }

  ghost predicate CountsAgree(cfg: Settings, s: System, w: Time) {
    forall c | c in s.attempts && Live(cfg, s.attempts[c], w) && s.attempts[c].row in s.rows ::
      s.rows[s.attempts[c].row].attempts == s.attempts[c].msg.attempts
  }

  lemma CountsAgreeStep(cfg: Settings, s: System, act: Action, w: Time)
    requires cfg.Valid() && FreshIds(s) && Exclusive(cfg, s, w) && CountsAgree(cfg, s, w)
    requires Enabled(s, act) && OnTime(cfg, s, act, w) && FreshClaim(s, act)
    ensures CountsAgree(cfg, Apply(cfg, s, act), w)
  {
    var s' := Apply(cfg, s, act);
    forall c | c in s'.attempts && Live(cfg, s'.attempts[c], w) && s'.attempts[c].row in s'.rows
      ensures s'.rows[s'.attempts[c].row].attempts == s'.attempts[c].msg.attempts
    {
      var id := s'.attempts[c].row;
      LiveAfter(cfg, s, act, w, c);
      CallsAfter(cfg, s, act, c);
      RowsAfter(cfg, s, act, id);
      if id in s.rows {
        RowsAfterOnTime(cfg, s, act, w, id);
      }
    }
  }

  lemma CountsAgreeAt(cfg: Settings, ss: seq<System>, acts: seq<Action>, ws: seq<Time>, i: nat)
    requires LeaseRun(cfg, ss, acts, ws) && FreshClaims(cfg, ss, acts) && i < |acts| && CountsAgree(cfg, ss[i], ws[i])
    ensures CountsAgree(cfg, ss[i + 1], ws[i])
  {
    ReachableFresh(cfg, ss, acts, i);
    ReachableExclusive(cfg, ss, acts, ws, i);
    assert TimelyAt(cfg, ss, acts, ws, i) && FreshClaimAt(cfg, ss, acts, i);
    CountsAgreeStep(cfg, ss[i], acts[i], ws[i]);
  }

  lemma {:induction false} ReachableCounts(cfg: Settings, ss: seq<System>, acts: seq<Action>, ws: seq<Time>, i: nat)
    requires LeaseRun(cfg, ss, acts, ws) && FreshClaims(cfg, ss, acts) && i < |acts|
    ensures CountsAgree(cfg, ss[i], ws[i])
  {
    if i > 0 {
      ReachableCounts(cfg, ss, acts, ws, i - 1);
      CountsAgreeAt(cfg, ss, acts, ws, i - 1);
    }
  }

  // ---------- failed hand-offs ----------

  /** What can happen to a failed hand-off of a message. */
  datatype Event =
    | HandOffFailed   // the hand-off fails
    | Recorded        // its relay writes the failure down
    | Lost            // its relay dies before it does

  /** A call on row id whose hand-off failed and whose completion write is still to come. */
  predicate FailedInFlight(a: Attempt, id: Id) {
    a.row == id && a.stage.HandedOff? && a.stage.verdict.Failed?
  }

  predicate Happens(s: System, act: Action, id: Id, e: Event)
    requires Enabled(s, act)
  {
    match e
    case HandOffFailed =>
      act.HandOff? && s.attempts[act.call].row == id && HandOffVerdict(s.attempts[act.call].msg, act.reply).Failed?
    case Recorded => act.Complete? && FailedInFlight(s.attempts[act.call], id)
    case Lost => act.Crash? && FailedInFlight(s.attempts[act.call], id)
  }

  ghost predicate EventAt(cfg: Settings, ss: seq<System>, acts: seq<Action>, i: nat, id: Id, e: Event)
    requires IsRun(cfg, ss, acts)
  {
    i < |acts| && StepAt(cfg, ss, acts, i) && Happens(ss[i], acts[i], id, e)
  }

  /** How often something happened to row id in the first k steps. */
  ghost function Count(cfg: Settings, ss: seq<System>, acts: seq<Action>, id: Id, e: Event, k: nat): nat
    requires IsRun(cfg, ss, acts)
  {
    if k == 0 then 0
    else Count(cfg, ss, acts, id, e, k - 1) + if EventAt(cfg, ss, acts, k - 1, id, e) then 1 else 0
  }

  ghost function InFlight(s: System, id: Id): set<Id> {
    set c | c in s.attempts && FailedInFlight(s.attempts[c], id)
  }

  /** Call c is in flight with a failed hand-off after the step. */
  ghost predicate InFlightNext(s: System, act: Action, id: Id, c: Id)
    requires Enabled(s, act)
  {
    if Happens(s, act, id, HandOffFailed) && c == act.call then true
    else if (Happens(s, act, id, Recorded) || Happens(s, act, id, Lost)) && c == act.call then false
    else c in InFlight(s, id)
  }

  lemma InFlightCall(cfg: Settings, s: System, act: Action, id: Id, c: Id)
    requires Enabled(s, act)
    ensures c in InFlight(Apply(cfg, s, act), id) <==> InFlightNext(s, act, id, c)
  {
  }

  lemma InFlightStep(cfg: Settings, s: System, act: Action, id: Id)
    requires Enabled(s, act)
    ensures
      var before, after := |InFlight(s, id)|, |InFlight(Apply(cfg, s, act), id)|;
      after == before + (if Happens(s, act, id, HandOffFailed) then 1 else 0)
                      - (if Happens(s, act, id, Recorded) || Happens(s, act, id, Lost) then 1 else 0)
  {
    var before, after := InFlight(s, id), InFlight(Apply(cfg, s, act), id);
    forall c ensures c in after <==> InFlightNext(s, act, id, c) {
      InFlightCall(cfg, s, act, id, c);
    }
    if Happens(s, act, id, HandOffFailed) {
      assert act.call !in before;
      assert after == before + {act.call};
    } else if Happens(s, act, id, Recorded) || Happens(s, act, id, Lost) {
      assert after == before - {act.call};
    } else {
      assert after == before;
    }
  }

  /** In every run, every failed hand-off was recorded, was lost with its relay, or is still in flight. */
  lemma {:induction false} FailuresAccounted(cfg: Settings, ss: seq<System>, acts: seq<Action>, k: nat, id: Id)
    requires IsRun(cfg, ss, acts) && k < |ss|
    ensures Count(cfg, ss, acts, id, HandOffFailed, k)
         == Count(cfg, ss, acts, id, Recorded, k) + Count(cfg, ss, acts, id, Lost, k) + |InFlight(ss[k], id)|
  {
    if k == 0 {
      assert InFlight(ss[0], id) == {};
    } else {
      FailuresAccounted(cfg, ss, acts, k - 1, id);
      assert StepAt(cfg, ss, acts, k - 1);
      InFlightStep(cfg, ss[k - 1], acts[k - 1], id);
    }
  }

  /** attempt_count is the number of recorded failures, plus the successful attempt. */
  lemma {:induction false} AttemptsCountRecorded(cfg: Settings, ss: seq<System>, acts: seq<Action>, ws: seq<Time>, k: nat, id: Id)
    requires LeaseRun(cfg, ss, acts, ws) && FreshClaims(cfg, ss, acts) && k < |ss|
    ensures id >= ss[k].nextRow ==> Count(cfg, ss, acts, id, Recorded, k) == 0
    ensures id in ss[k].rows ==>
      ss[k].rows[id].attempts == Count(cfg, ss, acts, id, Recorded, k) + if ss[k].rows[id].status.Dispatched? then 1 else 0
  {
    if k > 0 {
      AttemptsCountRecorded(cfg, ss, acts, ws, k - 1, id);
      CountAt(cfg, ss, acts, ws, k - 1, id);
    }
  }

  /** What one timely step does to an attempt count. */
  lemma CountAt(cfg: Settings, ss: seq<System>, acts: seq<Action>, ws: seq<Time>, i: nat, id: Id)
    requires LeaseRun(cfg, ss, acts, ws) && FreshClaims(cfg, ss, acts) && i < |acts|
    ensures ss[i].nextRow <= ss[i + 1].nextRow
    ensures id >= ss[i].nextRow ==> !CompletionAt(cfg, ss, acts, i, id)
    ensures id in ss[i + 1].rows && id !in ss[i].rows ==>
      id >= ss[i].nextRow && ss[i + 1].rows[id].attempts == 0 && !ss[i + 1].rows[id].status.Dispatched?
    ensures id in ss[i + 1].rows && id in ss[i].rows ==>
      var before, after := ss[i].rows[id], ss[i + 1].rows[id];
      if CompletionAt(cfg, ss, acts, i, id)
      then !Terminal(before) && after.attempts == before.attempts + 1
           && (after.status.Dispatched? <==> !EventAt(cfg, ss, acts, i, id, Recorded))
      else after.attempts == before.attempts && (after.status.Dispatched? <==> before.status.Dispatched?)
  {
    ReachableFresh(cfg, ss, acts, i);
    assert TimelyAt(cfg, ss, acts, ws, i);
    if id in ss[i + 1].rows {
      RowsAfter(cfg, ss[i], acts[i], id);
      if id in ss[i].rows {
        ReachableExclusive(cfg, ss, acts, ws, i);
        ReachableCounts(cfg, ss, acts, ws, i);
        RowsAfterOnTime(cfg, ss[i], acts[i], ws[i], id);
      }
    }
  }

  /** attempt_count against the failed hand-offs of the message: it falls short by exactly those whose relay
      died before its completion write or has not written yet. So it is the number of failed hand-offs, plus
      one once dispatched, if and only if there are none of these. */
  lemma AttemptsCountFailures(cfg: Settings, ss: seq<System>, acts: seq<Action>, ws: seq<Time>, k: nat, id: Id)
    requires LeaseRun(cfg, ss, acts, ws) && FreshClaims(cfg, ss, acts) && k < |ss| && id in ss[k].rows
    ensures
      var row, failed, lost := ss[k].rows[id], Count(cfg, ss, acts, id, HandOffFailed, k), Count(cfg, ss, acts, id, Lost, k);
      var success := if row.status.Dispatched? then 1 else 0;
      && row.attempts + lost + |InFlight(ss[k], id)| == failed + success
      && (row.attempts == failed + success <==> lost == 0 && InFlight(ss[k], id) == {})
  {
    AttemptsCountRecorded(cfg, ss, acts, ws, k, id);
    FailuresAccounted(cfg, ss, acts, k, id);
  }

  /** A well-formed message is dead-lettered after the maximum number of failed hand-offs: exactly that many
      when no relay died between a failed hand-off and its completion write or is still in between, and more
      otherwise. */
  lemma DeadLetterAfterMaxFailures(cfg: Settings, ss: seq<System>, acts: seq<Action>, ws: seq<Time>, k: nat, id: Id)
    requires LeaseRun(cfg, ss, acts, ws) && FreshClaims(cfg, ss, acts) && k < |ss|
    requires id in ss[k].rows && ss[k].rows[id].status.DeadLetter? && WellFormed(ss[k].rows[id])
    ensures
      var failed, lost := Count(cfg, ss, acts, id, HandOffFailed, k), Count(cfg, ss, acts, id, Lost, k);
      && failed == cfg.maxAttempts + lost + |InFlight(ss[k], id)|
      && (failed == cfg.maxAttempts <==> lost == 0 && InFlight(ss[k], id) == {})
  {
    AttemptsCountFailures(cfg, ss, acts, ws, k, id);
    AttemptCountBounded(cfg, ss, acts, k, id);
  }

  lemma {:induction false} CountGrows(cfg: Settings, ss: seq<System>, acts: seq<Action>, id: Id, e: Event, i: nat, k: nat)
    requires IsRun(cfg, ss, acts) && i < k && EventAt(cfg, ss, acts, i, id, e)
    ensures Count(cfg, ss, acts, id, e, k) > 0
  {
    if i < k - 1 {
      CountGrows(cfg, ss, acts, id, e, i, k - 1);
    }
  }

  // ---------- backoff ----------

  /** t leaves room for the waits of n failures after `base`, and is no earlier than `first`. */
  predicate After(t: Time, n: nat, first: Time, base: Time) {
    first <= t && base + BackoffSum(n) <= t
  }

  /** No attempt on this row, or on a copy of it, can start before the waits its attempt count stands for. */
  predicate RowWaits(cfg: Settings, row: Row, first: Time, base: Time) {
    && (row.status.Pending? ==> row.nextAttemptAt.Some? && After(row.nextAttemptAt.value, row.attempts, first, base))
    && (row.status.Claimed? ==> row.claimUntil.Some? && After(row.claimUntil.value - cfg.lease, row.attempts, first, base))
  }

  /** The same of a call: it works on its copy of the row, and a copy with at most m attempts is harmless. When
      claims are known to keep in step, nothing need be said of a call before it claims. */
  predicate CallWaits(cfg: Settings, a: Attempt, w: Time, m: nat, first: Time, base: Time, inStep: bool) {
    match a.stage
    case HasRead => inStep || a.msg.attempts <= m || RowWaits(cfg, a.msg, first, base)
    case Stamped(now) => inStep || a.msg.attempts <= m || After(now, a.msg.attempts, first, base)
    case _ => Live(cfg, a, w) ==> After(a.stage.now, a.msg.attempts, first, base)
  }

  ghost predicate Waits(cfg: Settings, s: System, id: Id, w: Time, m: nat, first: Time, inStep: bool) {
    var base := first - BackoffSum(m);
    && id < s.nextRow
    && (id in s.rows ==> RowWaits(cfg, s.rows[id], first, base))
    && (forall c | c in s.attempts && s.attempts[c].row == id :: CallWaits(cfg, s.attempts[c], w, m, first, base, inStep))
  }

  lemma WaitsLater(cfg: Settings, s: System, id: Id, w: Time, w': Time, m: nat, first: Time, inStep: bool)
    requires Waits(cfg, s, id, w, m, first, inStep) && w <= w'
    ensures Waits(cfg, s, id, w', m, first, inStep)
  {
  }

  /** A reading at which the row can be claimed is late enough. */
  lemma DueIsAfter(cfg: Settings, row: Row, now: Time, first: Time, base: Time)
    requires cfg.Valid() && RowWaits(cfg, row, first, base) && IsDispatchable(row, now)
    ensures After(now, row.attempts, first, base)
  {
  }

  /** A copy with few attempts is as late as the row it claims. */
  lemma FewAttemptsAfter(now: Time, n: nat, m: nat, first: Time)
    requires n <= m && first <= now
    ensures After(now, n, first, first - BackoffSum(m))
  {
    BackoffSumMonotone(n, m);
  }

  lemma RowWaitsStep(cfg: Settings, s: System, act: Action, w: Time, id: Id, m: nat, first: Time, inStep: bool)
    requires cfg.Valid() && Enabled(s, act) && OnTime(cfg, s, act, w) && Waits(cfg, s, id, w, m, first, inStep)
    requires id in RowsNext(cfg, s, act)
    ensures RowWaits(cfg, RowsNext(cfg, s, act)[id], first, first - BackoffSum(m))
  {
    RowsAfter(cfg, s, act, id);
    if act.Claim? && ClaimWins(s, act.call) && s.attempts[act.call].row == id {
      DueIsAfter(cfg, s.rows[id], s.attempts[act.call].stage.now, first, first - BackoffSum(m));
    }
  }

  /** A claim that wins with a copy that shows no more attempts than the table. */
  predicate KeepsInStep(s: System, act: Action)
    requires Enabled(s, act)
  {
    act.Claim? && ClaimWins(s, act.call) ==> s.attempts[act.call].msg.attempts <= s.rows[s.attempts[act.call].row].attempts
  }

  /** A copy with fewer attempts than the row it claims is as late as the row. */
  lemma FewerAfter(now: Time, n: nat, r: nat, first: Time, base: Time)
    requires n <= r && After(now, r, first, base)
    ensures After(now, n, first, base)
  {
    BackoffSumMonotone(n, r);
  }

  lemma CallWaitsStep(cfg: Settings, s: System, act: Action, w: Time, id: Id, m: nat, first: Time, c: Id, inStep: bool)
    requires cfg.Valid() && Enabled(s, act) && Waits(cfg, s, id, w, m, first, inStep)
    requires inStep && act.Claim? && s.attempts[act.call].row == id ==> KeepsInStep(s, act)
    requires c in AttemptsNext(cfg, s, act) && AttemptsNext(cfg, s, act)[c].row == id
    ensures CallWaits(cfg, AttemptsNext(cfg, s, act)[c], w, m, first, first - BackoffSum(m), inStep)
  {
    var base := first - BackoffSum(m);
    CallsAfter(cfg, s, act, c);
    if act.Stamp? && c == act.call {
      if !inStep && s.attempts[c].msg.attempts > m {
        DueIsAfter(cfg, s.attempts[c].msg, act.now, first, base);
      }
    } else if act.Claim? && c == act.call {
      var now := s.attempts[c].stage.now;
      DueIsAfter(cfg, s.rows[id], now, first, base);
      if inStep {
        FewerAfter(now, s.attempts[c].msg.attempts, s.rows[id].attempts, first, base);
      } else if s.attempts[c].msg.attempts <= m {
        FewAttemptsAfter(now, s.attempts[c].msg.attempts, m, first);
      }
    }
  }

  lemma WaitsAt(cfg: Settings, ss: seq<System>, acts: seq<Action>, ws: seq<Time>, i: nat, id: Id, m: nat, first: Time, inStep: bool)
    requires LeaseRun(cfg, ss, acts, ws) && i < |acts| && Waits(cfg, ss[i], id, ws[i], m, first, inStep)
    requires inStep && ClaimAt(cfg, ss, acts, i, id) ==> KeepsInStep(ss[i], acts[i])
    ensures Waits(cfg, ss[i + 1], id, ws[i], m, first, inStep)
  {
    assert TimelyAt(cfg, ss, acts, ws, i);
    if id in ss[i + 1].rows {
      RowWaitsStep(cfg, ss[i], acts[i], ws[i], id, m, first, inStep);
    }
    var s' := ss[i + 1];
    forall c | c in s'.attempts && s'.attempts[c].row == id
      ensures CallWaits(cfg, s'.attempts[c], ws[i], m, first, first - BackoffSum(m), inStep)
    {
      CallWaitsStep(cfg, ss[i], acts[i], ws[i], id, m, first, c, inStep);
    }
  }

  /** No call in flight has read more attempts on row id than the table shows. */
  ghost predicate CopiesBehind(s: System, id: Id) {
    id in s.rows ==> forall c | c in s.attempts && s.attempts[c].row == id :: s.attempts[c].msg.attempts <= s.rows[id].attempts
  }

  /** Every claim of row id from step i up to step j keeps in step with the table. */
  ghost predicate ClaimsInStep(cfg: Settings, ss: seq<System>, acts: seq<Action>, i: nat, j: nat, id: Id)
    requires IsRun(cfg, ss, acts)
  {
    forall k | i <= k < j :: ClaimAt(cfg, ss, acts, k, id) ==> KeepsInStep(ss[k], acts[k])
  }

  /** What the backoff from the claim at step i on needs: no later claim, or no call now in flight, is ahead. */
  ghost predicate NobodyAhead(cfg: Settings, ss: seq<System>, acts: seq<Action>, i: nat, j: nat, id: Id, inStep: bool)
    requires IsRun(cfg, ss, acts) && i < |ss|
  {
    if inStep then ClaimsInStep(cfg, ss, acts, i, j, id) else CopiesBehind(ss[i], id)
  }

  lemma WaitsBegin(cfg: Settings, ss: seq<System>, acts: seq<Action>, ws: seq<Time>, i: nat, id: Id, inStep: bool)
    requires LeaseRun(cfg, ss, acts, ws) && ClaimAt(cfg, ss, acts, i, id)
    requires if inStep then KeepsInStep(ss[i], acts[i]) else CopiesBehind(ss[i], id)
    ensures Waits(cfg, ss[i + 1], id, ws[i], ss[i].rows[id].attempts, Reading(cfg, ss, acts, i, id), inStep)
  {
    var m, first := ss[i].rows[id].attempts, Reading(cfg, ss, acts, i, id);
    ReachableFresh(cfg, ss, acts, i);
    ReachableExclusive(cfg, ss, acts, ws, i);
    assert TimelyAt(cfg, ss, acts, ws, i);
    RowsAfterOnTime(cfg, ss[i], acts[i], ws[i], id);
    FewAttemptsAfter(first, ss[i].attempts[acts[i].call].msg.attempts, m, first);
    FewAttemptsAfter(first, m, m, first);
  }

  lemma {:induction false} WaitsFrom(cfg: Settings, ss: seq<System>, acts: seq<Action>, ws: seq<Time>, i: nat, j: nat, id: Id, inStep: bool)
    requires LeaseRun(cfg, ss, acts, ws) && ClaimAt(cfg, ss, acts, i, id) && i < j < |acts|
    requires NobodyAhead(cfg, ss, acts, i, j, id, inStep)
    ensures Waits(cfg, ss[j], id, ws[j], ss[i].rows[id].attempts, Reading(cfg, ss, acts, i, id), inStep)
  {
    var m, first := ss[i].rows[id].attempts, Reading(cfg, ss, acts, i, id);
    if j == i + 1 {
      WaitsBegin(cfg, ss, acts, ws, i, id, inStep);
    } else {
      WaitsFrom(cfg, ss, acts, ws, i, j - 1, id, inStep);
      WaitsAt(cfg, ss, acts, ws, j - 1, id, m, first, inStep);
    }
    WaitsLater(cfg, ss[j], id, ws[j - 1], ws[j], m, first, inStep);
  }

  /** Every attempt comes after at least the backoff of the failures its attempt count has grown by since the
      attempt at step i, across crash and reclaim, and also when rows change between read and claim: when each
      claim in between shows no more attempts on its own copy than the table does, or when no call in flight
      at step i does. */
  lemma AttemptsBackOff(cfg: Settings, ss: seq<System>, acts: seq<Action>, ws: seq<Time>, i: nat, j: nat, id: Id)
    requires LeaseRun(cfg, ss, acts, ws)
    requires i < j && ClaimAt(cfg, ss, acts, i, id) && ClaimAt(cfg, ss, acts, j, id)
    requires ClaimsInStep(cfg, ss, acts, i, j, id) || CopiesBehind(ss[i], id)
    ensures Reading(cfg, ss, acts, j, id) >= Reading(cfg, ss, acts, i, id)
    ensures Reading(cfg, ss, acts, j, id) - Reading(cfg, ss, acts, i, id)
         >= BackoffSum(ss[j].rows[id].attempts) - BackoffSum(ss[i].rows[id].attempts)
  {
    WaitsFrom(cfg, ss, acts, ws, i, j, id, ClaimsInStep(cfg, ss, acts, i, j, id));
    var m, first := ss[i].rows[id].attempts, Reading(cfg, ss, acts, i, id);
    DueIsAfter(cfg, ss[j].rows[id], Reading(cfg, ss, acts, j, id), first, first - BackoffSum(m));
  }

  /** The wait of one more failure makes up for the growth from r attempts to m + 1 exactly when m <= r. */
  lemma WaitMakesUp(m: nat, r: nat)
    ensures Backoff(m + 1) >= BackoffSum(m + 1) - BackoffSum(r) <==> m <= r
  {
    if m <= r {
      BackoffSumMonotone(m, r);
    } else {
      BackoffSumMonotone(r, m);
    }
  }

  /** The exact condition, for one attempt, in all interleavings and for arbitrary clocks: the wait that a retry
      write sets from the reading of its claim is at least the backoff of the failures the attempt count grew
      by, if and only if the call's own copy showed no more attempts than the table when it claimed. */
  lemma RetryWaitExactly(cfg: Settings, ss: seq<System>, acts: seq<Action>, k: nat, id: Id) returns (i: nat)
    requires cfg.Valid() && IsRun(cfg, ss, acts) && CompletionAt(cfg, ss, acts, k, id)
    requires id in ss[k].rows && ss[k + 1].rows[id].status.Pending?
    ensures i < k && ClaimAt(cfg, ss, acts, i, id) && acts[i].call == acts[k].call
    ensures
      var row := ss[k + 1].rows[id];
      && row.nextAttemptAt.Some?
      && (row.nextAttemptAt.value - Reading(cfg, ss, acts, i, id) >= BackoffSum(row.attempts) - BackoffSum(ss[i].rows[id].attempts)
          <==> ss[i].attempts[acts[i].call].msg.attempts <= ss[i].rows[id].attempts)
  {
    assert StepAt(cfg, ss, acts, k);
    i := LateWrites.ClaimOf(cfg, ss, acts, k, acts[k].call);
    WaitMakesUp(ss[k].attempts[acts[k].call].msg.attempts, ss[i].rows[id].attempts);
  }

  /** A row without attempts has never been completed, so no copy of it has any. */
  lemma {:induction false} NoAttemptsNoCopies(cfg: Settings, ss: seq<System>, acts: seq<Action>, i: nat, id: Id)
    requires cfg.Valid() && IsRun(cfg, ss, acts) && i < |ss| && id in ss[i].rows && ss[i].rows[id].attempts == 0
    ensures CopiesBehind(ss[i], id)
  {
    if i > 0 {
      ReachableFresh(cfg, ss, acts, i - 1);
      assert StepAt(cfg, ss, acts, i - 1);
      RowsAfter(cfg, ss[i - 1], acts[i - 1], id);
      if id in ss[i - 1].rows {
        NoAttemptsNoCopies(cfg, ss, acts, i - 1, id);
      }
      forall c | c in ss[i].attempts && ss[i].attempts[c].row == id ensures ss[i].attempts[c].msg.attempts == 0 {
        CallsAfter(cfg, ss[i - 1], acts[i - 1], c);
      }
    }
  }

  /** From the first attempt, in every lease-respecting run: attempt n+1 is at least 15n s after it for n <= 3,
      45+60(n-3) s for 3 <= n <= 10 and 465+300(n-10) s beyond. */
  lemma AttemptsBackOffFromFirst(cfg: Settings, ss: seq<System>, acts: seq<Action>, ws: seq<Time>, i: nat, j: nat, id: Id)
    requires LeaseRun(cfg, ss, acts, ws)
    requires i < j && ClaimAt(cfg, ss, acts, i, id) && ClaimAt(cfg, ss, acts, j, id)
    requires ss[i].rows[id].attempts == 0
    ensures
      var n, wait := ss[j].rows[id].attempts, Reading(cfg, ss, acts, j, id) - Reading(cfg, ss, acts, i, id);
      && (n <= 3 ==> wait >= 15 * n * SECOND)
      && (3 <= n <= 10 ==> wait >= (45 + 60 * (n - 3)) * SECOND)
      && (10 <= n ==> wait >= (465 + 300 * (n - 10)) * SECOND)
  {
    NoAttemptsNoCopies(cfg, ss, acts, i, id);
    AttemptsBackOff(cfg, ss, acts, ws, i, j, id);
    BackoffSumClosedForm(ss[j].rows[id].attempts);
  }

  /** With read and claim as one step, the same between any two attempts. */
  lemma AttemptsBackOffFresh(cfg: Settings, ss: seq<System>, acts: seq<Action>, ws: seq<Time>, i: nat, j: nat, id: Id)
    requires LeaseRun(cfg, ss, acts, ws) && FreshClaims(cfg, ss, acts)
    requires i < j && ClaimAt(cfg, ss, acts, i, id) && ClaimAt(cfg, ss, acts, j, id)
    ensures Reading(cfg, ss, acts, j, id) - Reading(cfg, ss, acts, i, id)
         >= BackoffSum(ss[j].rows[id].attempts) - BackoffSum(ss[i].rows[id].attempts)
  {
    forall k | i <= k < j && ClaimAt(cfg, ss, acts, k, id) ensures KeepsInStep(ss[k], acts[k]) {
      assert FreshClaimAt(cfg, ss, acts, k);
    }
    AttemptsBackOff(cfg, ss, acts, ws, i, j, id);
  }
}
