/**
 The store of one-time login exchange codes (internal/api/handlers/auth.go). Clock readings are arbitrary:
 nothing assumes that they move forward.
 */
module ExchangeCodes {
  import opened Common
  import Text

  /** time.Time's zero value, which the store reads as "no expiry". */
  const ZERO_TIME: Time := 0

  datatype Entry = Entry(session: string, expiresAt: Time, codeExpiry: Time)

  type Entries = map<string, Entry>

  predicate Past(e: Entry, now: Time) {
    e.codeExpiry != ZERO_TIME && now > e.codeExpiry
  }

  /** cleanupExpiredLocked */
  function Purge(entries: Entries, now: Time): Entries {
    map c | c in entries && !Past(entries[c], now) :: entries[c]
  }

  /** A code lives for ttl, and no longer than the session it stands for. */
  function CodeExpiry(now: Time, ttl: Time, expiresAt: Time): (r: Time)
    ensures r <= now + ttl
    ensures expiresAt != ZERO_TIME ==> r <= expiresAt
    ensures r == now + ttl || r == expiresAt
  {
    if expiresAt != ZERO_TIME && expiresAt < now + ttl then expiresAt else now + ttl
  }

  const ATTEMPTS := 5

  /** The first of five generated codes that is not in use; None when the generator fails (a None
      candidate) or all five are taken. */
  function PickCode(entries: Entries, candidates: nat -> Option<string>, k: nat): (r: Option<string>)
    requires k <= ATTEMPTS
    ensures r.Some? ==> r.value !in entries
    decreases ATTEMPTS - k
  {
    if k == ATTEMPTS then None
    else match candidates(k)
      case None => None
      case Some(code) => if code in entries then PickCode(entries, candidates, k + 1) else Some(code)
  }

  /** Attempt k comes upon a code that is in use. */
  predicate Clashes(entries: Entries, candidates: nat -> Option<string>, k: nat) {
    candidates(k).Some? && candidates(k).value in entries
  }

  /** The code handed out is the first of five generated ones that is not in use; there is none when the
      generator fails first, or all five are in use. */
  ghost predicate FirstFree(entries: Entries, candidates: nat -> Option<string>, code: Option<string>) {
    exists k: nat :: FreeAt(entries, candidates, code, k)
  }

  ghost predicate FreeAt(entries: Entries, candidates: nat -> Option<string>, code: Option<string>, k: nat) {
    && k <= 5
    && (forall j: nat | j < k :: Clashes(entries, candidates, j))
    && (if k == 5 then code == None else code == candidates(k) && !Clashes(entries, candidates, k))
  }

  lemma {:induction false} PickIsFirstFree(entries: Entries, candidates: nat -> Option<string>, k: nat)
    requires k <= ATTEMPTS && forall j: nat | j < k :: Clashes(entries, candidates, j)
    ensures FirstFree(entries, candidates, PickCode(entries, candidates, k))
    decreases ATTEMPTS - k
  {
    if k < ATTEMPTS && Clashes(entries, candidates, k) {
      PickIsFirstFree(entries, candidates, k + 1);
    } else {
      assert FreeAt(entries, candidates, PickCode(entries, candidates, k), k);
    }
  }

  /** The entry can still be redeemed at this reading. */
  predicate Live(e: Entry, now: Time) {
    e.codeExpiry == ZERO_TIME || now <= e.codeExpiry
  }

  /** What a cleanup at this reading leaves. */
  ghost predicate KeepsLive(before: Entries, after: Entries, now: Time) {
    forall c :: (c in after <==> c in before && Live(before[c], now)) && (c in after ==> after[c] == before[c])
  }

  class ExchangeCodeStore {
    var entries: Entries
    const ttl: Time

    constructor (ttl: Time)
      ensures entries == map[] && this.ttl == ttl
    {
      this.entries, this.ttl := map[], ttl;
    }

    method CleanupExpired(now: Time)
      modifies this
      ensures entries == Purge(old(entries), now) && KeepsLive(old(entries), entries, now)
    {
      var codes := entries.Keys;
      ghost var before := entries;
      while codes != {}
        invariant codes <= before.Keys
        invariant forall c :: c in entries <==> c in before && (c in codes || !Past(before[c], now))
        invariant forall c | c in entries :: entries[c] == before[c]
        decreases |codes|
      {
        var code :| code in codes;
        codes := codes - {code};
        if code in entries && Past(entries[code], now) {
          entries := entries - {code};
        }
      }
    }

    method Issue(session: string, expiresAt: Time, now: Time, candidates: nat -> Option<string>) returns (code: Option<string>)
      modifies this
      ensures code == PickCode(Purge(old(entries), now), candidates, 0)
      ensures KeepsLive(old(entries), Purge(old(entries), now), now) && FirstFree(Purge(old(entries), now), candidates, code)
      ensures code.None? ==> entries == Purge(old(entries), now)
      ensures code.Some? ==> entries == Purge(old(entries), now)[code.value := Entry(session, expiresAt, CodeExpiry(now, ttl, expiresAt))]
      ensures entries == Next(ttl, old(entries), DoIssue(session, expiresAt, now, candidates))
    {
      var codeExpiry := now + ttl;
      if expiresAt != ZERO_TIME && expiresAt < codeExpiry {
        codeExpiry := expiresAt;
      }
      CleanupExpired(now);
      PickIsFirstFree(entries, candidates, 0);
      for attempt := 0 to ATTEMPTS
        invariant entries == Purge(old(entries), now)
        invariant PickCode(entries, candidates, 0) == PickCode(entries, candidates, attempt)
      {
        code := candidates(attempt);
        if code.None? {
          return;
        }
        if code.value in entries {
          continue;
        }
        entries := entries[code.value := Entry(session, expiresAt, codeExpiry)];
        return;
      }
      return None;
    }

    method Consume(code: string, now: Time) returns (entry: Option<Entry>)
      modifies this
      ensures entry == Consumed(old(entries), Text.Trim(code), now)
      ensures
        var trimmed := Text.Trim(code);
        && (entry.Some? <==> trimmed != "" && trimmed in old(entries) && Live(old(entries)[trimmed], now))
        && (entry.Some? ==> entry.value == old(entries)[trimmed])
        && (trimmed == "" ==> entries == old(entries))
        && (trimmed != "" ==> forall c :: c in entries <==> c in old(entries) && Live(old(entries)[c], now) && c != trimmed)
        && (forall c | c in entries :: c in old(entries) && entries[c] == old(entries)[c])
      ensures entries == Next(ttl, old(entries), DoConsume(Text.Trim(code), now))
    {
      var trimmed := Text.Trim(code);
      if trimmed == "" {
        return None;
      }
      CleanupExpired(now);
      if trimmed !in entries {
        assert entries - {trimmed} == entries;
        return None;
      }
      var found := entries[trimmed];
      entries := entries - {trimmed};
      if Past(found, now) {
        return None;
      }
      return Some(found);
    }
  }

  // ---------- runs ----------

  datatype Op =
    | DoIssue(session: string, expiresAt: Time, now: Time, candidates: nat -> Option<string>)
    | DoConsume(trimmed: string, now: Time)

  function Consumed(entries: Entries, trimmed: string, now: Time): Option<Entry> {
    if trimmed == "" || trimmed !in Purge(entries, now) then None else Some(entries[trimmed])
  }

  function Next(ttl: Time, entries: Entries, op: Op): Entries {
    match op
    case DoIssue(session, expiresAt, now, candidates) =>
      var purged := Purge(entries, now);
      var code := PickCode(purged, candidates, 0);
      if code.None? then purged else purged[code.value := Entry(session, expiresAt, CodeExpiry(now, ttl, expiresAt))]
    case DoConsume(trimmed, now) =>
      if trimmed == "" then entries else Purge(entries, now) - {trimmed}
  }

  predicate StepAt(ttl: Time, ss: seq<Entries>, ops: seq<Op>, i: nat)
    requires i < |ops| && |ss| == |ops| + 1
  {
    ss[i + 1] == Next(ttl, ss[i], ops[i])
  }

  /** Any sequence of Issue and Consume from an empty store. */
  ghost predicate IsRun(ttl: Time, ss: seq<Entries>, ops: seq<Op>) {
    |ss| == |ops| + 1 && ss[0] == map[] && forall i | 0 <= i < |ops| :: StepAt(ttl, ss, ops, i)
  }

  /** Step i hands out code c. */
  ghost predicate IssuesAt(ss: seq<Entries>, ops: seq<Op>, i: nat, c: string)
    requires |ss| == |ops| + 1
  {
    i < |ops| && ops[i].DoIssue? && PickCode(Purge(ss[i], ops[i].now), ops[i].candidates, 0) == Some(c)
  }

  /** Step j redeems code c. */
  ghost predicate RedeemsAt(ss: seq<Entries>, ops: seq<Op>, j: nat, c: string)
    requires |ss| == |ops| + 1
  {
    j < |ops| && ops[j].DoConsume? && ops[j].trimmed == c && Consumed(ss[j], c, ops[j].now).Some?
  }

  function EntryOf(ttl: Time, op: Op): Entry
    requires op.DoIssue?
  {
    Entry(op.session, op.expiresAt, CodeExpiry(op.now, ttl, op.expiresAt))
  }

  /** An entry changes in no other way than being added by Issue, consumed, or dropped by a reading past
      its expiry; in particular no Issue overwrites it. */
  lemma EntryLeaves(ttl: Time, entries: Entries, op: Op, c: string)
    ensures c in entries && c in Next(ttl, entries, op) && !Past(entries[c], op.now) ==> Next(ttl, entries, op)[c] == entries[c]
    ensures c in entries && c !in Next(ttl, entries, op) ==>
      Past(entries[c], op.now) || (op.DoConsume? && op.trimmed == c)
    ensures c in Next(ttl, entries, op) && (c !in entries || Next(ttl, entries, op)[c] != entries[c]) ==>
      op.DoIssue? && PickCode(Purge(entries, op.now), op.candidates, 0) == Some(c) && Next(ttl, entries, op)[c] == EntryOf(ttl, op)
  {
  }

  /** Every entry in the store is the one its last Issue put there, and has been there ever since. */
  lemma {:induction false} LastIssue(ttl: Time, ss: seq<Entries>, ops: seq<Op>, j: nat, c: string) returns (i: nat)
    requires IsRun(ttl, ss, ops) && j < |ss| && c in ss[j]
    ensures i < j && IssuesAt(ss, ops, i, c) && ss[j][c] == EntryOf(ttl, ops[i])
    ensures forall k | i < k < j :: !IssuesAt(ss, ops, k, c) && !RedeemsAt(ss, ops, k, c)
  {
    assert j > 0;
    assert StepAt(ttl, ss, ops, j - 1);
    EntryLeaves(ttl, ss[j - 1], ops[j - 1], c);
    if IssuesAt(ss, ops, j - 1, c) {
      i := j - 1;
    } else {
      i := LastIssue(ttl, ss, ops, j - 1, c);
    }
  }

  /** Step j redeems the code that step i issued, with neither an issue nor a redemption of it in between. */
  ghost predicate Redeems(ttl: Time, ss: seq<Entries>, ops: seq<Op>, i: nat, j: nat, c: string) {
    && IsRun(ttl, ss, ops)
    && i < j && IssuesAt(ss, ops, i, c) && RedeemsAt(ss, ops, j, c)
    && forall k | i < k < j :: !IssuesAt(ss, ops, k, c) && !RedeemsAt(ss, ops, k, c)
  }

  /** No later than the issue reading plus ttl, nor than the expiry of the session. */
  predicate InTime(ttl: Time, op: Op, now: Time)
    requires op.DoIssue?
  {
    now <= op.now + ttl && (op.expiresAt != ZERO_TIME ==> now <= op.expiresAt)
  }

  /** Every redeemed code was issued, and comes with the session it was issued for. The redemption is in time
      unless the computed expiry of the code is the zero time. */
  lemma RedeemedWasIssued(ttl: Time, ss: seq<Entries>, ops: seq<Op>, j: nat, c: string) returns (i: nat)
    requires IsRun(ttl, ss, ops) && RedeemsAt(ss, ops, j, c)
    ensures Redeems(ttl, ss, ops, i, j, c)
    ensures Consumed(ss[j], c, ops[j].now) == Some(EntryOf(ttl, ops[i]))
    ensures CodeExpiry(ops[i].now, ttl, ops[i].expiresAt) != ZERO_TIME ==> InTime(ttl, ops[i], ops[j].now)
  {
    i := LastIssue(ttl, ss, ops, j, c);
  }

  /** The operation reads the clock and drops what is past its expiry. */
  predicate ReadsClock(op: Op) {
    op.DoIssue? || op.trimmed != ""
  }

  /** No clock reading after step i and before step j was past the expiry of the code issued there. */
  ghost predicate NoneLate(ttl: Time, ops: seq<Op>, i: nat, j: nat)
    requires i < j <= |ops| && ops[i].DoIssue?
  {
    var expiry := CodeExpiry(ops[i].now, ttl, ops[i].expiresAt);
    expiry == ZERO_TIME || forall k | i < k < j && ReadsClock(ops[k]) :: ops[k].now <= expiry
  }

  lemma {:induction false} StaysWhileInTime(ttl: Time, ss: seq<Entries>, ops: seq<Op>, i: nat, j: nat, c: string)
    requires IsRun(ttl, ss, ops) && i < j <= |ops| && IssuesAt(ss, ops, i, c)
    requires forall k | i < k < j :: !IssuesAt(ss, ops, k, c) && !RedeemsAt(ss, ops, k, c)
    ensures c in ss[j] <==> NoneLate(ttl, ops, i, j)
    ensures c in ss[j] ==> ss[j][c] == EntryOf(ttl, ops[i])
  {
    assert StepAt(ttl, ss, ops, j - 1);
    if j > i + 1 {
      StaysWhileInTime(ttl, ss, ops, i, j - 1, c);
      EntryLeaves(ttl, ss[j - 1], ops[j - 1], c);
      assert !IssuesAt(ss, ops, j - 1, c) && !RedeemsAt(ss, ops, j - 1, c);
    }
  }

  /** A code can be redeemed, once, exactly as long as no clock reading since its issue, the one of the
      redemption included, was past its expiry. */
  lemma RedeemableExactly(ttl: Time, ss: seq<Entries>, ops: seq<Op>, i: nat, j: nat, c: string)
    requires IsRun(ttl, ss, ops) && i < j < |ops| && IssuesAt(ss, ops, i, c) && c != ""
    requires forall k | i < k < j :: !IssuesAt(ss, ops, k, c) && !RedeemsAt(ss, ops, k, c)
    requires ops[j].DoConsume? && ops[j].trimmed == c
    ensures RedeemsAt(ss, ops, j, c) <==> NoneLate(ttl, ops, i, j + 1)
    ensures (forall k | i < k <= j && ReadsClock(ops[k]) :: InTime(ttl, ops[i], ops[k].now)) ==> RedeemsAt(ss, ops, j, c)
  {
    StaysWhileInTime(ttl, ss, ops, i, j, c);
  }

  /** Every redemption, in every run, of a code issued by `op` is in time. */
  ghost predicate AlwaysInTime(ttl: Time, op: Op)
    requires op.DoIssue?
  {
    forall ss: seq<Entries>, ops: seq<Op>, i: nat, j: nat, c: string | Redeems(ttl, ss, ops, i, j, c) && ops[i] == op :: InTime(ttl, op, ops[j].now)
  }

  /** An issue whose first generated code is fit to be typed in. */
  predicate Generates(op: Op) {
    op.DoIssue? && op.candidates(0).Some? && op.candidates(0).value != "" && Text.Trimmed(op.candidates(0).value)
  }

  /** The zero time is read as "no expiry": a code whose computed expiry is the zero time can be redeemed at any
      reading. */
  lemma ZeroExpiryNeverExpires(ttl: Time, op: Op, now: Time) returns (ss: seq<Entries>, ops: seq<Op>)
    requires Generates(op)
    requires CodeExpiry(op.now, ttl, op.expiresAt) == ZERO_TIME
    ensures |ops| == 2 && ops[0] == op && ops[1].now == now && Redeems(ttl, ss, ops, 0, 1, op.candidates(0).value)
  {
    var c := op.candidates(0).value;
    var consume := DoConsume(c, now);
    var s1 := Next(ttl, map[], op);
    assert Purge(map[], op.now) == map[];
    assert s1 == map[c := EntryOf(ttl, op)];
    ss, ops := [map[], s1, Next(ttl, s1, consume)], [op, consume];
    assert StepAt(ttl, ss, ops, 0) && StepAt(ttl, ss, ops, 1);
  }

  /** So every redemption of an issued code is in time if and only if its computed expiry is not the zero time,
      that is, unless issue reading plus ttl is the zero time and no session expiry lies before it. */
  lemma InTimeExactly(ttl: Time, op: Op)
    requires Generates(op)
    ensures AlwaysInTime(ttl, op) <==> CodeExpiry(op.now, ttl, op.expiresAt) != ZERO_TIME
    ensures AlwaysInTime(ttl, op) <==>
      op.now + ttl != ZERO_TIME || (op.expiresAt != ZERO_TIME && op.expiresAt < op.now + ttl)
  {
    if CodeExpiry(op.now, ttl, op.expiresAt) == ZERO_TIME {
      var ss, ops := ZeroExpiryNeverExpires(ttl, op, ZERO_TIME + 1);
      assert !InTime(ttl, op, ops[1].now);
    } else {
      forall ss: seq<Entries>, ops: seq<Op>, i: nat, j: nat, c: string | Redeems(ttl, ss, ops, i, j, c) && ops[i] == op ensures InTime(ttl, op, ops[j].now) {
        var i' := RedeemedWasIssued(ttl, ss, ops, j, c);
        assert i' == i;
      }
    }
  }

  /** One issue, at most one redemption: between two redemptions of a code lies a new issue of it. */
  lemma RedeemedAtMostOnce(ttl: Time, ss: seq<Entries>, ops: seq<Op>, i: nat, j: nat, c: string) returns (k: nat)
    requires IsRun(ttl, ss, ops) && i < j && RedeemsAt(ss, ops, i, c) && RedeemsAt(ss, ops, j, c)
    ensures i < k < j && IssuesAt(ss, ops, k, c)
  {
    k := RedeemedWasIssued(ttl, ss, ops, j, c);
  }
}
