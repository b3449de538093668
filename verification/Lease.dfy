/**
 Runs in which every relay respects its lease.

 A run gets a wall clock: one time per step, never going back. Callers read that clock, and a relay
 issues its completion write no later than its own `claim_until`. Crashes, reclaims, cleanup, task
 deletion and the gap between reading a row and claiming it are all still there.
 */
module Lease {
  import opened Common
  import opened Outbox
  import opened Protocol
  import Query

  predicate OnTime(cfg: Settings, s: System, act: Action, w: Time)
    requires Enabled(s, act)
  {
    && (act.Stamp? ==> act.now == w)
    && (act.SelectExpired? ==> act.now == w)
    && (act.Complete? ==> w <= s.attempts[act.call].stage.now + cfg.lease)
  }

  ghost predicate LeaseRun(cfg: Settings, ss: seq<System>, acts: seq<Action>, ws: seq<Time>) {
    && cfg.Valid()
    && IsRun(cfg, ss, acts)
    && |ws| == |acts|
    && (forall i, j | 0 <= i <= j < |ws| :: ws[i] <= ws[j])
    && (forall i | 0 <= i < |acts| :: TimelyAt(cfg, ss, acts, ws, i))
  }

  predicate TimelyAt(cfg: Settings, ss: seq<System>, acts: seq<Action>, ws: seq<Time>, i: nat)
    requires i < |acts| == |ws| && |ss| == |acts| + 1
  {
    StepAt(cfg, ss, acts, i) && OnTime(cfg, ss[i], acts[i], ws[i])
  }

  /** A call that claimed its row and whose lease has not run out at time w. */
  predicate Live(cfg: Settings, a: Attempt, w: Time) {
    (a.stage.Held? || a.stage.HandedOff?) && w <= a.stage.now + cfg.lease
  }

  /** The row of a live call carries exactly that call's lease. */
  predicate Owns(cfg: Settings, s: System, a: Attempt)
    requires !a.stage.HasRead?
  {
    a.row in s.rows ==>
      s.rows[a.row].status.Claimed? && s.rows[a.row].claimUntil == Some(a.stage.now + cfg.lease)
  }

  ghost predicate Exclusive(cfg: Settings, s: System, w: Time) {
    && (forall c | c in s.attempts && !s.attempts[c].stage.HasRead? :: s.attempts[c].stage.now <= w)
    && (forall c | c in s.attempts && Live(cfg, s.attempts[c], w) :: Owns(cfg, s, s.attempts[c]))
    && (forall c, d | c in s.attempts && d in s.attempts && s.attempts[c].row == s.attempts[d].row
                      && Live(cfg, s.attempts[c], w) && Live(cfg, s.attempts[d], w) :: c == d)
  }

  ghost predicate Retention(s: System) {
    && (forall id | id in s.rows :: s.rows[id].retainedUntil.Some? <==> Terminal(s.rows[id]))
    && (forall c | c in s.cleanups :: |s.cleanups[c].rows| <= s.cleanups[c].limit)
    && (forall c, id | c in s.cleanups && id in s.cleanups[c].rows && id in s.rows :: Expired(s.rows[id], s.cleanups[c].now))
    && (forall c, id | c in s.cleanups && id in s.cleanups[c].rows :: id < s.nextRow)
  }

  lemma ClockAdvances(cfg: Settings, s: System, w: Time, w': Time)
    requires Exclusive(cfg, s, w) && w <= w'
    ensures Exclusive(cfg, s, w')
  {
  }

  /** In a timely step a row changes hands only when nobody live holds it, and is completed only by its holder. */
  lemma RowsAfterOnTime(cfg: Settings, s: System, act: Action, w: Time, id: Id)
    requires cfg.Valid() && FreshIds(s) && Exclusive(cfg, s, w) && Enabled(s, act) && OnTime(cfg, s, act, w)
    requires id in s.rows && id in RowsNext(cfg, s, act)
    ensures Terminal(s.rows[id]) ==> RowsNext(cfg, s, act)[id] == s.rows[id]
    ensures act.Claim? && ClaimWins(s, act.call) && s.attempts[act.call].row == id ==>
      forall c | c in s.attempts && Live(cfg, s.attempts[c], w) :: s.attempts[c].row != id
    ensures act.Complete? && s.attempts[act.call].row == id ==>
      Live(cfg, s.attempts[act.call], w) && Owns(cfg, s, s.attempts[act.call])
  {
    RowsAfter(cfg, s, act, id);
    if act.Complete? && s.attempts[act.call].row == id {
      assert Live(cfg, s.attempts[act.call], w);
    }
    if act.Claim? && ClaimWins(s, act.call) && s.attempts[act.call].row == id {
      forall c | c in s.attempts && Live(cfg, s.attempts[c], w) ensures s.attempts[c].row != id {
        assert Owns(cfg, s, s.attempts[c]);
        assert s.attempts[act.call].stage.now <= w;
      }
    }
  }

  /** A live call after a step was live before it, on the same row, or just won its claim. */
  lemma LiveAfter(cfg: Settings, s: System, act: Action, w: Time, c: Id)
    requires Enabled(s, act) && c in AttemptsNext(cfg, s, act) && Live(cfg, AttemptsNext(cfg, s, act)[c], w)
    ensures c in s.attempts
    ensures AttemptsNext(cfg, s, act)[c].row == s.attempts[c].row
    ensures !s.attempts[c].stage.HasRead? && AttemptsNext(cfg, s, act)[c].stage.now == s.attempts[c].stage.now
    ensures
      || (Live(cfg, s.attempts[c], w) && AttemptsNext(cfg, s, act)[c].msg == s.attempts[c].msg)
      || (act.Claim? && act.call == c && ClaimWins(s, c))
  {
    CallsAfter(cfg, s, act, c);
  }

  lemma OwnsStep(cfg: Settings, s: System, act: Action, w: Time, c: Id)
    requires cfg.Valid() && FreshIds(s) && Exclusive(cfg, s, w) && Enabled(s, act) && OnTime(cfg, s, act, w)
    requires c in AttemptsNext(cfg, s, act) && Live(cfg, AttemptsNext(cfg, s, act)[c], w)
    ensures Owns(cfg, Apply(cfg, s, act), AttemptsNext(cfg, s, act)[c])
  {
    LiveAfter(cfg, s, act, w, c);
    var id := s.attempts[c].row;
    if id in RowsNext(cfg, s, act) {
      RowsAfter(cfg, s, act, id);
      if id in s.rows {
        RowsAfterOnTime(cfg, s, act, w, id);
      }
    }
  }

  lemma ExclusiveStep(cfg: Settings, s: System, act: Action, w: Time)
    requires cfg.Valid() && FreshIds(s) && Exclusive(cfg, s, w) && Enabled(s, act) && OnTime(cfg, s, act, w)
    ensures Exclusive(cfg, Apply(cfg, s, act), w)
  {
    var s' := Apply(cfg, s, act);
    forall c | c in s'.attempts && !s'.attempts[c].stage.HasRead? ensures s'.attempts[c].stage.now <= w {
      CallsAfter(cfg, s, act, c);
    }
    forall c | c in s'.attempts && Live(cfg, s'.attempts[c], w) ensures Owns(cfg, s', s'.attempts[c]) {
      OwnsStep(cfg, s, act, w, c);
    }
    forall c, d | c in s'.attempts && d in s'.attempts && s'.attempts[c].row == s'.attempts[d].row
                  && Live(cfg, s'.attempts[c], w) && Live(cfg, s'.attempts[d], w)
      ensures c == d
    {
      LiveAfter(cfg, s, act, w, c);
      LiveAfter(cfg, s, act, w, d);
      if act.Claim? && ClaimWins(s, act.call) {
        RowsAfterOnTime(cfg, s, act, w, s.attempts[act.call].row);
      }
    }
  }

  lemma RetainedStep(cfg: Settings, s: System, act: Action, w: Time, id: Id)
    requires cfg.Valid() && FreshIds(s) && Exclusive(cfg, s, w) && Retention(s)
    requires Enabled(s, act) && OnTime(cfg, s, act, w) && id in RowsNext(cfg, s, act)
    ensures RowsNext(cfg, s, act)[id].retainedUntil.Some? <==> Terminal(RowsNext(cfg, s, act)[id])
  {
    RowsAfter(cfg, s, act, id);
    if id in s.rows {
      RowsAfterOnTime(cfg, s, act, w, id);
    }
  }

  lemma SelectedStep(cfg: Settings, s: System, act: Action, w: Time, c: Id, id: Id)
    requires cfg.Valid() && FreshIds(s) && Exclusive(cfg, s, w) && Retention(s)
    requires Enabled(s, act) && OnTime(cfg, s, act, w)
    requires c in CleanupsNext(s, act) && id in CleanupsNext(s, act)[c].rows && id in RowsNext(cfg, s, act)
    ensures Expired(RowsNext(cfg, s, act)[id], CleanupsNext(s, act)[c].now)
  {
    RowsAfter(cfg, s, act, id);
    assert id in s.rows;
    RowsAfterOnTime(cfg, s, act, w, id);
  }

  lemma RetentionStep(cfg: Settings, s: System, act: Action, w: Time)
    requires cfg.Valid() && FreshIds(s) && Exclusive(cfg, s, w) && Retention(s)
    requires Enabled(s, act) && OnTime(cfg, s, act, w)
    ensures Retention(Apply(cfg, s, act))
  {
    var s' := Apply(cfg, s, act);
    forall id | id in s'.rows ensures s'.rows[id].retainedUntil.Some? <==> Terminal(s'.rows[id]) {
      RetainedStep(cfg, s, act, w, id);
    }
    forall c, id | c in s'.cleanups && id in s'.cleanups[c].rows && id in s'.rows
      ensures Expired(s'.rows[id], s'.cleanups[c].now)
    {
      SelectedStep(cfg, s, act, w, c, id);
    }
  }

  // ---------- theorems over every lease-respecting run ----------

  /** The wall clock when state i is current: that of the step that led to it. */
  ghost function ClockAt(ws: seq<Time>, i: nat): Time
    requires i <= |ws|
  {
    if i == 0 then (if |ws| > 0 then ws[0] else 0) else ws[i - 1]
  }

  lemma ExclusiveAt(cfg: Settings, ss: seq<System>, acts: seq<Action>, ws: seq<Time>, i: nat)
    requires LeaseRun(cfg, ss, acts, ws) && i < |acts| && Exclusive(cfg, ss[i], ws[i])
    ensures Exclusive(cfg, ss[i + 1], ws[i])
  {
    ReachableFresh(cfg, ss, acts, i);
    assert TimelyAt(cfg, ss, acts, ws, i);
    ExclusiveStep(cfg, ss[i], acts[i], ws[i]);
  }

  lemma {:induction false} ReachableExclusive(cfg: Settings, ss: seq<System>, acts: seq<Action>, ws: seq<Time>, i: nat)
    requires LeaseRun(cfg, ss, acts, ws) && i < |ss|
    ensures Exclusive(cfg, ss[i], ClockAt(ws, i))
    ensures i < |ws| ==> Exclusive(cfg, ss[i], ws[i])
  {
    if i > 0 {
      ReachableExclusive(cfg, ss, acts, ws, i - 1);
      ExclusiveAt(cfg, ss, acts, ws, i - 1);
    }
    if i < |ws| {
      ClockAdvances(cfg, ss[i], ClockAt(ws, i), ws[i]);
    }
  }

  lemma RetentionAt(cfg: Settings, ss: seq<System>, acts: seq<Action>, ws: seq<Time>, i: nat)
    requires LeaseRun(cfg, ss, acts, ws) && i < |acts| && Retention(ss[i])
    ensures Retention(ss[i + 1])
  {
    ReachableFresh(cfg, ss, acts, i);
    ReachableExclusive(cfg, ss, acts, ws, i);
    assert TimelyAt(cfg, ss, acts, ws, i);
    RetentionStep(cfg, ss[i], acts[i], ws[i]);
  }

  lemma {:induction false} ReachableRetention(cfg: Settings, ss: seq<System>, acts: seq<Action>, ws: seq<Time>, i: nat)
    requires LeaseRun(cfg, ss, acts, ws) && i < |ss|
    ensures Retention(ss[i])
  {
    if i > 0 {
      ReachableRetention(cfg, ss, acts, ws, i - 1);
      RetentionAt(cfg, ss, acts, ws, i - 1);
    }
  }

  /** At most one live relay holds a given row, and while it does the row carries its lease. */
  lemma OneLiveHolder(cfg: Settings, ss: seq<System>, acts: seq<Action>, ws: seq<Time>, i: nat, c: Id, d: Id)
    requires LeaseRun(cfg, ss, acts, ws) && i < |ss|
    requires c in ss[i].attempts && Live(cfg, ss[i].attempts[c], ClockAt(ws, i))
    ensures ss[i].attempts[c].row in ss[i].rows ==>
      var row := ss[i].rows[ss[i].attempts[c].row];
      row.status.Claimed? && row.claimUntil == Some(ss[i].attempts[c].stage.now + cfg.lease)
    ensures
      (d in ss[i].attempts && ss[i].attempts[d].row == ss[i].attempts[c].row && Live(cfg, ss[i].attempts[d], ClockAt(ws, i)))
      ==> d == c
  {
    ReachableExclusive(cfg, ss, acts, ws, i);
    assert Owns(cfg, ss[i], ss[i].attempts[c]);
  }

  lemma FrozenAt(cfg: Settings, ss: seq<System>, acts: seq<Action>, ws: seq<Time>, i: nat, id: Id)
    requires LeaseRun(cfg, ss, acts, ws) && i < |acts| && id < ss[i].nextRow
    requires id in ss[i].rows ==> Terminal(ss[i].rows[id])
    ensures id < ss[i + 1].nextRow
    ensures id in ss[i + 1].rows ==> id in ss[i].rows && ss[i + 1].rows[id] == ss[i].rows[id]
  {
    ReachableFresh(cfg, ss, acts, i);
    ReachableExclusive(cfg, ss, acts, ws, i);
    assert TimelyAt(cfg, ss, acts, ws, i);
    if id in ss[i + 1].rows {
      RowsAfter(cfg, ss[i], acts[i], id);
      RowsAfterOnTime(cfg, ss[i], acts[i], ws[i], id);
    }
  }

  /** A dispatched or dead-lettered row never changes again: it is kept as it is, or deleted for good. */
  lemma {:induction false} TerminalRowsFrozen(cfg: Settings, ss: seq<System>, acts: seq<Action>, ws: seq<Time>, i: nat, j: nat, id: Id)
    requires LeaseRun(cfg, ss, acts, ws) && i <= j < |ss|
    requires id in ss[i].rows && Terminal(ss[i].rows[id])
    ensures id < ss[j].nextRow
    ensures id in ss[j].rows ==> ss[j].rows[id] == ss[i].rows[id]
  {
    if i == j {
      ReachableFresh(cfg, ss, acts, i);
    } else {
      TerminalRowsFrozen(cfg, ss, acts, ws, i, j - 1, id);
      FrozenAt(cfg, ss, acts, ws, j - 1, id);
    }
  }

  /** retained_until is set exactly on the terminal rows. */
  lemma RetainedIffTerminal(cfg: Settings, ss: seq<System>, acts: seq<Action>, ws: seq<Time>, i: nat, id: Id)
    requires LeaseRun(cfg, ss, acts, ws) && i < |ss| && id in ss[i].rows
    ensures ss[i].rows[id].retainedUntil.Some? <==> Terminal(ss[i].rows[id])
  {
    ReachableRetention(cfg, ss, acts, ws, i);
  }

  function Completion(row: Row): Option<Time> {
    if row.status.Dispatched? then row.dispatchedAt
    else if row.status.DeadLetter? then row.deadLetteredAt
    else None
  }

  function RetentionOf(cfg: Settings, row: Row): Time {
    if row.status.Dispatched? then cfg.dispatchedRetention else cfg.deadLetterRetention
  }

  /** Cleanup, with relay steps interleaved between its select and its delete: a delete removes at most
      `limit` rows, and each of them is terminal with its completion reading plus retention behind the
      wall clock. No pending or claimed row is removed. */
  lemma CleanupRemovesOnlyExpired(cfg: Settings, ss: seq<System>, acts: seq<Action>, ws: seq<Time>, i: nat, id: Id)
    requires LeaseRun(cfg, ss, acts, ws) && i < |acts| && acts[i].DeleteExpired?
    requires id in ss[i].rows && id !in ss[i + 1].rows
    ensures Terminal(ss[i].rows[id])
    ensures Completion(ss[i].rows[id]).Some?
    ensures Completion(ss[i].rows[id]).value + RetentionOf(cfg, ss[i].rows[id]) < ws[i]
    ensures acts[i].call in ss[i].cleanups
    ensures |ss[i].rows.Keys - ss[i + 1].rows.Keys| <= ss[i].cleanups[acts[i].call].limit
  {
    ReachableRetention(cfg, ss, acts, ws, i);
    assert TimelyAt(cfg, ss, acts, ws, i);
    var call := ss[i].cleanups[acts[i].call];
    SelectionIsPast(cfg, ss, acts, ws, i, acts[i].call);
    RowBoundsAt(cfg, ss, acts, i, id);
    Query.SubsetSize(ss[i].rows.Keys - ss[i + 1].rows.Keys, call.rows);
  }

  lemma {:induction false} SelectionIsPast(cfg: Settings, ss: seq<System>, acts: seq<Action>, ws: seq<Time>, i: nat, c: Id)
    requires LeaseRun(cfg, ss, acts, ws) && i < |acts| && c in ss[i].cleanups
    ensures ss[i].cleanups[c].now <= ws[i]
  {
    assert i > 0;
    assert TimelyAt(cfg, ss, acts, ws, i - 1);
    if c in ss[i - 1].cleanups {
      SelectionIsPast(cfg, ss, acts, ws, i - 1, c);
    }
  }
}
