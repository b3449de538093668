/**
 When a completion write meets its own claim. Completion writes match on the id alone; these results hold in
 every run, with arbitrary clocks and whether or not relays respect their leases.
 */
module LateWrites {
  import opened Common
  import opened Outbox
  import opened Protocol

  /** Step k is a claim or a completion write of row id. */
  ghost predicate Touches(cfg: Settings, ss: seq<System>, acts: seq<Action>, k: nat, id: Id)
    requires IsRun(cfg, ss, acts)
  {
    ClaimAt(cfg, ss, acts, k, id) || CompletionAt(cfg, ss, acts, k, id)
  }

  /** No claim won and no completion write hit row id from step i up to step j. */
  ghost predicate Untouched(cfg: Settings, ss: seq<System>, acts: seq<Action>, i: nat, j: nat, id: Id)
    requires IsRun(cfg, ss, acts)
  {
    forall k | i <= k < j :: !Touches(cfg, ss, acts, k, id)
  }

  // ---------- rows change by claims and completion writes only ----------

  lemma RowAt(cfg: Settings, ss: seq<System>, acts: seq<Action>, k: nat, id: Id)
    requires cfg.Valid() && IsRun(cfg, ss, acts) && k < |acts| && id < ss[k].nextRow && id in ss[k + 1].rows
    ensures id in ss[k].rows && ss[k].nextRow <= ss[k + 1].nextRow
    ensures ss[k + 1].rows[id] != ss[k].rows[id] ==> Touches(cfg, ss, acts, k, id)
  {
    assert StepAt(cfg, ss, acts, k);
    RowsAfter(cfg, ss[k], acts[k], id);
  }

  lemma {:induction false} NextRowGrows(cfg: Settings, ss: seq<System>, acts: seq<Action>, i: nat, j: nat)
    requires IsRun(cfg, ss, acts) && i <= j < |ss|
    ensures ss[i].nextRow <= ss[j].nextRow
  {
    if i < j {
      NextRowGrows(cfg, ss, acts, i, j - 1);
      assert StepAt(cfg, ss, acts, j - 1);
    }
  }

  /** A row that is there was there before, and is as it was if nothing touched it. */
  lemma {:induction false} UntouchedRow(cfg: Settings, ss: seq<System>, acts: seq<Action>, i: nat, j: nat, id: Id)
    requires cfg.Valid() && IsRun(cfg, ss, acts) && i <= j < |ss| && id < ss[i].nextRow && id in ss[j].rows
    ensures id in ss[i].rows
    ensures Untouched(cfg, ss, acts, i, j, id) ==> ss[j].rows[id] == ss[i].rows[id]
  {
    if i < j {
      NextRowGrows(cfg, ss, acts, i, j - 1);
      RowAt(cfg, ss, acts, j - 1, id);
      UntouchedRow(cfg, ss, acts, i, j - 1, id);
    }
  }

  /** The first and the last of the steps from i up to j at which something holds. */
  lemma {:induction false} FirstAndLast(holds: nat -> bool, i: nat, j: nat) returns (first: nat, last: nat)
    requires exists k :: i <= k < j && holds(k)
    ensures i <= first <= last < j && holds(first) && holds(last)
    ensures forall k | i <= k < first :: !holds(k)
    ensures forall k | last < k < j :: !holds(k)
  {
    if exists k :: i <= k < j - 1 && holds(k) {
      first, last := FirstAndLast(holds, i, j - 1);
    } else {
      first, last := j - 1, j - 1;
    }
    if holds(j - 1) {
      last := j - 1;
    }
  }

  lemma FirstAndLastTouch(cfg: Settings, ss: seq<System>, acts: seq<Action>, i: nat, j: nat, id: Id) returns (first: nat, last: nat)
    requires IsRun(cfg, ss, acts) && !Untouched(cfg, ss, acts, i, j, id)
    ensures i <= first < j && Touches(cfg, ss, acts, first, id) && Untouched(cfg, ss, acts, i, first, id)
    ensures i <= last < j && Touches(cfg, ss, acts, last, id) && Untouched(cfg, ss, acts, last + 1, j, id)
  {
    var touches := (k: nat) => Touches(cfg, ss, acts, k, id);
    var k :| i <= k < j && Touches(cfg, ss, acts, k, id);
    assert touches(k);
    first, last := FirstAndLast(touches, i, j);
    forall m | i <= m < first ensures !Touches(cfg, ss, acts, m, id) {
      assert !touches(m);
    }
    forall m | last + 1 <= m < j ensures !Touches(cfg, ss, acts, m, id) {
      assert !touches(m);
    }
  }

  lemma Claimed(cfg: Settings, ss: seq<System>, acts: seq<Action>, i: nat, id: Id)
    requires cfg.Valid() && IsRun(cfg, ss, acts) && ClaimAt(cfg, ss, acts, i, id)
    ensures id < ss[i + 1].nextRow && id in ss[i + 1].rows
    ensures ss[i + 1].rows[id] == ClaimWrite(cfg, ss[i].rows[id], Reading(cfg, ss, acts, i, id))
  {
    ReachableFresh(cfg, ss, acts, i);
  }

  lemma Completed(cfg: Settings, ss: seq<System>, acts: seq<Action>, k: nat, id: Id)
    requires cfg.Valid() && IsRun(cfg, ss, acts) && CompletionAt(cfg, ss, acts, k, id) && id in ss[k + 1].rows
    ensures id in ss[k].rows && id < ss[k].nextRow && !ss[k + 1].rows[id].status.Claimed?
  {
    ReachableFresh(cfg, ss, acts, k);
  }

  // ---------- a claim and the touches that follow it ----------

  /** The first touch after a claim changes the row. When it is a claim, its reading is more than the lease
      after the first claim's. */
  lemma FirstTouch(cfg: Settings, ss: seq<System>, acts: seq<Action>, i: nat, k: nat, id: Id)
    requires cfg.Valid() && IsRun(cfg, ss, acts) && ClaimAt(cfg, ss, acts, i, id) && i < k && Touches(cfg, ss, acts, k, id)
    requires Untouched(cfg, ss, acts, i + 1, k, id)
    ensures ClaimAt(cfg, ss, acts, k, id) ==> Reading(cfg, ss, acts, k, id) > Reading(cfg, ss, acts, i, id) + cfg.lease
    ensures id in ss[k + 1].rows ==> ss[k + 1].rows[id] != ss[i + 1].rows[id]
  {
    Claimed(cfg, ss, acts, i, id);
    if ClaimAt(cfg, ss, acts, k, id) {
      forall m | i < m < k ensures !CompletionAt(cfg, ss, acts, m, id) {
        assert !Touches(cfg, ss, acts, m, id);
      }
      ClaimsAreSpaced(cfg, ss, acts, i, k, id);
      Claimed(cfg, ss, acts, k, id);
    } else if id in ss[k + 1].rows {
      Completed(cfg, ss, acts, k, id);
    }
  }

  ghost predicate StaysAsClaimed(cfg: Settings, ss: seq<System>, acts: seq<Action>, i: nat, j: nat, id: Id)
    requires IsRun(cfg, ss, acts) && ClaimAt(cfg, ss, acts, i, id) && j < |ss|
  {
    forall k | i < k <= j :: id in ss[k].rows && id in ss[i + 1].rows && ss[k].rows[id] == ss[i + 1].rows[id]
  }

  /** While the row is in the table, it stays as a call's claim left it if and only if no other claim wins and
      no completion write hits it. */
  lemma OwnClaimStays(cfg: Settings, ss: seq<System>, acts: seq<Action>, i: nat, j: nat, id: Id)
    requires cfg.Valid() && IsRun(cfg, ss, acts) && ClaimAt(cfg, ss, acts, i, id) && i < j < |ss| && id in ss[j].rows
    ensures StaysAsClaimed(cfg, ss, acts, i, j, id) <==> Untouched(cfg, ss, acts, i + 1, j, id)
  {
    Claimed(cfg, ss, acts, i, id);
    if Untouched(cfg, ss, acts, i + 1, j, id) {
      forall k | i < k <= j ensures id in ss[k].rows && ss[k].rows[id] == ss[i + 1].rows[id] {
        NextRowGrows(cfg, ss, acts, i + 1, k);
        UntouchedRow(cfg, ss, acts, k, j, id);
        UntouchedRow(cfg, ss, acts, i + 1, k, id);
      }
    } else {
      var k, _ := FirstAndLastTouch(cfg, ss, acts, i + 1, j, id);
      FirstTouch(cfg, ss, acts, i, k, id);
    }
  }

  /** The same at one point in time: a completion write at step j finds the row as the claim at step i left it
      if and only if nothing else touched it in between, provided no other claim carried the very same
      reading. (Witnesses.SameReadingHidesOthers shows what happens when one does.) */
  lemma FindsOwnClaim(cfg: Settings, ss: seq<System>, acts: seq<Action>, i: nat, j: nat, id: Id)
    requires cfg.Valid() && IsRun(cfg, ss, acts) && ClaimAt(cfg, ss, acts, i, id) && i < j < |ss| && id in ss[j].rows
    requires forall k | i < k < j && ClaimAt(cfg, ss, acts, k, id) :: Reading(cfg, ss, acts, k, id) != Reading(cfg, ss, acts, i, id)
    ensures id in ss[i + 1].rows
    ensures ss[j].rows[id] == ss[i + 1].rows[id] <==> Untouched(cfg, ss, acts, i + 1, j, id)
  {
    Claimed(cfg, ss, acts, i, id);
    UntouchedRow(cfg, ss, acts, i + 1, j, id);
    if ss[j].rows[id] == ss[i + 1].rows[id] && !Untouched(cfg, ss, acts, i + 1, j, id) {
      var k := LooksUntouched(cfg, ss, acts, i, j, id);
    }
  }

  /** A row that looks as the claim left it, though it was touched, was last touched by a claim that carried
      the very same reading. */
  lemma LooksUntouched(cfg: Settings, ss: seq<System>, acts: seq<Action>, i: nat, j: nat, id: Id) returns (k: nat)
    requires cfg.Valid() && IsRun(cfg, ss, acts) && ClaimAt(cfg, ss, acts, i, id) && i < j < |ss| && id in ss[j].rows
    requires id in ss[i + 1].rows && ss[j].rows[id] == ss[i + 1].rows[id] && !Untouched(cfg, ss, acts, i + 1, j, id)
    ensures i < k < j && ClaimAt(cfg, ss, acts, k, id) && Untouched(cfg, ss, acts, k + 1, j, id)
    ensures Reading(cfg, ss, acts, k, id) == Reading(cfg, ss, acts, i, id)
  {
    Claimed(cfg, ss, acts, i, id);
    var first;
    first, k := FirstAndLastTouch(cfg, ss, acts, i + 1, j, id);
    AfterLastTouch(cfg, ss, acts, k, j, id);
  }

  /** The row at step j shows who touched it last: a claim, with its reading, or a completion write. */
  lemma AfterLastTouch(cfg: Settings, ss: seq<System>, acts: seq<Action>, k: nat, j: nat, id: Id)
    requires cfg.Valid() && IsRun(cfg, ss, acts) && k < j < |ss| && id in ss[j].rows
    requires Touches(cfg, ss, acts, k, id) && Untouched(cfg, ss, acts, k + 1, j, id)
    ensures id in ss[k + 1].rows && ss[j].rows[id] == ss[k + 1].rows[id]
    ensures ClaimAt(cfg, ss, acts, k, id) ==>
      ss[j].rows[id].status.Claimed? && ss[j].rows[id].claimedAt == Some(Reading(cfg, ss, acts, k, id))
    ensures CompletionAt(cfg, ss, acts, k, id) ==> !ss[j].rows[id].status.Claimed?
  {
    ReachableFresh(cfg, ss, acts, k);
    assert StepAt(cfg, ss, acts, k);
    UntouchedRow(cfg, ss, acts, k + 1, j, id);
    if ClaimAt(cfg, ss, acts, k, id) {
      Claimed(cfg, ss, acts, k, id);
    } else {
      Completed(cfg, ss, acts, k, id);
    }
  }

  // ---------- completion writes on terminal rows ----------

  /** Call c has claimed its row and not written yet. */
  predicate HoldsClaim(s: System, c: Id) {
    c in s.attempts && (s.attempts[c].stage.Held? || s.attempts[c].stage.HandedOff?)
  }

  /** The step at which a call that holds a claim won it. */
  lemma {:induction false} ClaimOf(cfg: Settings, ss: seq<System>, acts: seq<Action>, j: nat, c: Id) returns (i: nat)
    requires IsRun(cfg, ss, acts) && j < |ss| && HoldsClaim(ss[j], c)
    ensures i < j && ClaimAt(cfg, ss, acts, i, ss[j].attempts[c].row) && acts[i].call == c
    ensures Reading(cfg, ss, acts, i, ss[j].attempts[c].row) == ss[j].attempts[c].stage.now
    ensures ss[i].attempts[c].msg.attempts == ss[j].attempts[c].msg.attempts
    ensures forall m | i < m <= j :: HoldsClaim(ss[m], c)
  {
    assert j > 0;
    assert StepAt(cfg, ss, acts, j - 1);
    CallsAfter(cfg, ss[j - 1], acts[j - 1], c);
    if acts[j - 1].Claim? && acts[j - 1].call == c {
      i := j - 1;
    } else {
      i := ClaimOf(cfg, ss, acts, j - 1, c);
    }
  }

  /** Step k completes row id for good. */
  ghost predicate EndsAt(cfg: Settings, ss: seq<System>, acts: seq<Action>, k: nat, id: Id)
    requires IsRun(cfg, ss, acts)
  {
    CompletionAt(cfg, ss, acts, k, id) && id in ss[k + 1].rows && Terminal(ss[k + 1].rows[id])
  }

  /** k is the last touch of row id before step j, and completes it for good. */
  ghost predicate EndedBefore(cfg: Settings, ss: seq<System>, acts: seq<Action>, k: nat, j: nat, id: Id)
    requires IsRun(cfg, ss, acts)
  {
    EndsAt(cfg, ss, acts, k, id) && Untouched(cfg, ss, acts, k + 1, j, id)
  }

  /** A completion write of a call that claimed at step i meets a terminal row if and only if, after that
      claim, another call's completion write ended the row and nothing has touched it since. */
  lemma MeetsTerminalRow(cfg: Settings, ss: seq<System>, acts: seq<Action>, j: nat, id: Id) returns (i: nat)
    requires cfg.Valid() && IsRun(cfg, ss, acts) && CompletionAt(cfg, ss, acts, j, id) && id in ss[j].rows
    ensures i < j && ClaimAt(cfg, ss, acts, i, id) && acts[i].call == acts[j].call
    ensures Terminal(ss[j].rows[id]) <==>
      exists k :: i < k < j && EndedBefore(cfg, ss, acts, k, j, id) && acts[k].call != acts[j].call
  {
    assert StepAt(cfg, ss, acts, j);
    var c := acts[j].call;
    i := ClaimOf(cfg, ss, acts, j, c);
    Claimed(cfg, ss, acts, i, id);
    if Terminal(ss[j].rows[id]) {
      UntouchedRow(cfg, ss, acts, i + 1, j, id);
      var _, k := FirstAndLastTouch(cfg, ss, acts, i + 1, j, id);
      AfterLastTouch(cfg, ss, acts, k, j, id);
      assert EndedBefore(cfg, ss, acts, k, j, id);
      OthersComplete(cfg, ss, acts, k, c, id);
    }
    if k :| i < k < j && EndedBefore(cfg, ss, acts, k, j, id) && acts[k].call != acts[j].call {
      AfterLastTouch(cfg, ss, acts, k, j, id);
    }
  }

  /** A call that still holds its claim after a completion write did not make that write. */
  lemma OthersComplete(cfg: Settings, ss: seq<System>, acts: seq<Action>, k: nat, c: Id, id: Id)
    requires IsRun(cfg, ss, acts) && CompletionAt(cfg, ss, acts, k, id) && HoldsClaim(ss[k + 1], c)
    ensures acts[k].call != c
  {
  }

  /** A terminal row changes only by the completion write of a call that had claimed it before another call
      ended it. */
  lemma TerminalChangedByCompletion(cfg: Settings, ss: seq<System>, acts: seq<Action>, j: nat, id: Id) returns (i: nat, k: nat)
    requires cfg.Valid() && IsRun(cfg, ss, acts) && j < |acts|
    requires id in ss[j].rows && Terminal(ss[j].rows[id]) && id in ss[j + 1].rows && ss[j + 1].rows[id] != ss[j].rows[id]
    ensures CompletionAt(cfg, ss, acts, j, id)
    ensures i < k < j && ClaimAt(cfg, ss, acts, i, id) && acts[i].call == acts[j].call
    ensures EndedBefore(cfg, ss, acts, k, j, id) && acts[k].call != acts[j].call
  {
    ReachableFresh(cfg, ss, acts, j);
    RowAt(cfg, ss, acts, j, id);
    i := MeetsTerminalRow(cfg, ss, acts, j, id);
    k :| i < k < j && EndedBefore(cfg, ss, acts, k, j, id) && acts[k].call != acts[j].call;
  }

  // ---------- retained_until ----------

  /** Step k is a completion write that meets row id terminal and leaves it open. */
  ghost predicate ReopensAt(cfg: Settings, ss: seq<System>, acts: seq<Action>, k: nat, id: Id)
    requires IsRun(cfg, ss, acts)
  {
    && CompletionAt(cfg, ss, acts, k, id)
    && id in ss[k].rows && Terminal(ss[k].rows[id])
    && id in ss[k + 1].rows && !Terminal(ss[k + 1].rows[id])
  }

  ghost predicate NotEnded(cfg: Settings, ss: seq<System>, acts: seq<Action>, k: nat, j: nat, id: Id)
    requires IsRun(cfg, ss, acts)
  {
    forall m | k < m < j :: !EndsAt(cfg, ss, acts, m, id)
  }

  /** Row id was reopened before step j and not ended since. */
  ghost predicate Reopened(cfg: Settings, ss: seq<System>, acts: seq<Action>, j: nat, id: Id)
    requires IsRun(cfg, ss, acts)
  {
    exists k: nat :: ReopenedBy(cfg, ss, acts, k, j, id)
  }

  /** k is a witness for Reopened. */
  ghost predicate ReopenedBy(cfg: Settings, ss: seq<System>, acts: seq<Action>, k: nat, j: nat, id: Id)
    requires IsRun(cfg, ss, acts)
  {
    k < j && ReopensAt(cfg, ss, acts, k, id) && NotEnded(cfg, ss, acts, k, j, id)
  }

  lemma ReopenedByNext(cfg: Settings, ss: seq<System>, acts: seq<Action>, k: nat, j: nat, id: Id)
    requires IsRun(cfg, ss, acts) && k < j
    ensures ReopenedBy(cfg, ss, acts, k, j + 1, id) <==> ReopenedBy(cfg, ss, acts, k, j, id) && !EndsAt(cfg, ss, acts, j, id)
  {
  }

  lemma ReopenedStays(cfg: Settings, ss: seq<System>, acts: seq<Action>, j: nat, id: Id)
    requires IsRun(cfg, ss, acts) && Reopened(cfg, ss, acts, j, id) && !EndsAt(cfg, ss, acts, j, id)
    ensures Reopened(cfg, ss, acts, j + 1, id)
  {
    var k: nat :| ReopenedBy(cfg, ss, acts, k, j, id);
    ReopenedByNext(cfg, ss, acts, k, j, id);
  }

  lemma ReopenedBefore(cfg: Settings, ss: seq<System>, acts: seq<Action>, j: nat, id: Id)
    requires IsRun(cfg, ss, acts) && Reopened(cfg, ss, acts, j + 1, id) && !ReopensAt(cfg, ss, acts, j, id)
    ensures Reopened(cfg, ss, acts, j, id) && !EndsAt(cfg, ss, acts, j, id)
  {
    var k: nat :| ReopenedBy(cfg, ss, acts, k, j + 1, id);
    ReopenedByNext(cfg, ss, acts, k, j, id);
  }

  lemma ReopenedNext(cfg: Settings, ss: seq<System>, acts: seq<Action>, j: nat, id: Id)
    requires IsRun(cfg, ss, acts)
    ensures Reopened(cfg, ss, acts, j + 1, id) <==>
      ReopensAt(cfg, ss, acts, j, id) || (Reopened(cfg, ss, acts, j, id) && !EndsAt(cfg, ss, acts, j, id))
  {
    if ReopensAt(cfg, ss, acts, j, id) {
      assert ReopenedBy(cfg, ss, acts, j, j + 1, id);
    } else if Reopened(cfg, ss, acts, j + 1, id) {
      ReopenedBefore(cfg, ss, acts, j, id);
    } else if Reopened(cfg, ss, acts, j, id) && !EndsAt(cfg, ss, acts, j, id) {
      ReopenedStays(cfg, ss, acts, j, id);
    }
  }

  lemma {:induction false} NewRowsNotReopened(cfg: Settings, ss: seq<System>, acts: seq<Action>, j: nat, id: Id)
    requires cfg.Valid() && IsRun(cfg, ss, acts) && j < |ss| && id >= ss[j].nextRow
    ensures !Reopened(cfg, ss, acts, j, id)
  {
    if k: nat :| ReopenedBy(cfg, ss, acts, k, j, id) {
      ReachableFresh(cfg, ss, acts, k);
      NextRowGrows(cfg, ss, acts, k, j);
    }
  }

  /** How one step changes whether a row carries retained_until. */
  lemma RetainedAt(cfg: Settings, ss: seq<System>, acts: seq<Action>, j: nat, id: Id)
    requires cfg.Valid() && IsRun(cfg, ss, acts) && j < |acts| && id in ss[j].rows && id in ss[j + 1].rows
    ensures
      var before, after := ss[j].rows[id], ss[j + 1].rows[id];
      && (Terminal(after) ==> after.retainedUntil.Some?)
      && (EndsAt(cfg, ss, acts, j, id) ==> Terminal(after))
      && (Terminal(after) ==> EndsAt(cfg, ss, acts, j, id) || after == before)
      && (!Terminal(after) ==> after.retainedUntil == before.retainedUntil)
      && (!Terminal(after) && Terminal(before) ==> ReopensAt(cfg, ss, acts, j, id))
      && (ReopensAt(cfg, ss, acts, j, id) ==> before.retainedUntil.Some?)
  {
    ReachableFresh(cfg, ss, acts, j);
    RowBoundsAt(cfg, ss, acts, j, id);
    RowBoundsAt(cfg, ss, acts, j + 1, id);
    assert StepAt(cfg, ss, acts, j);
    RowsAfter(cfg, ss[j], acts[j], id);
  }

  /** In every run, on time or not: retained_until is set exactly on the terminal rows and on those open rows
      that a completion write reopened and none has ended since. */
  lemma {:induction false} RetainedExactly(cfg: Settings, ss: seq<System>, acts: seq<Action>, j: nat, id: Id)
    requires cfg.Valid() && IsRun(cfg, ss, acts) && j < |ss| && id in ss[j].rows
    ensures ss[j].rows[id].retainedUntil.Some? <==> Terminal(ss[j].rows[id]) || Reopened(cfg, ss, acts, j, id)
  {
    assert j > 0;
    var i := j - 1;
    ReopenedNext(cfg, ss, acts, i, id);
    if id in ss[i].rows {
      RetainedExactly(cfg, ss, acts, i, id);
      RetainedAt(cfg, ss, acts, i, id);
    } else {
      CreatedRow(cfg, ss, acts, i, id);
      NewRowsNotReopened(cfg, ss, acts, i, id);
    }
  }

  lemma CreatedRow(cfg: Settings, ss: seq<System>, acts: seq<Action>, i: nat, id: Id)
    requires cfg.Valid() && IsRun(cfg, ss, acts) && i < |acts| && id !in ss[i].rows && id in ss[i + 1].rows
    ensures id >= ss[i].nextRow && !Terminal(ss[i + 1].rows[id]) && ss[i + 1].rows[id].retainedUntil.None?
  {
    assert StepAt(cfg, ss, acts, i);
    RowsAfter(cfg, ss[i], acts[i], id);
  }
}
