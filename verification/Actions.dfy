/**
 Batch actions on inspection results (internal/modules/articleinspect/actions/service.go): offlining the
 articles behind results, and marking results ignored or processed. Without database errors.
 */
module Actions {
  import opened Common
  import opened Lifecycle
  import opened UniqueIds

  datatype Disposition = DispPending | Ignored | Processed | Offlined | Republished | DispFailed

  datatype Result = Result(orgId: Id, taskId: Id, articleId: Id, articleState: int, disposition: Disposition, latestAction: Id)

  datatype Status = StatusSuccess | StatusPartial | StatusFailed

  datatype Summary = Summary(targets: nat, success: nat, fail: nat, skip: nat, status: Status)

  datatype DispositionLog = DispositionLog(resultId: Id, articleId: Id, before: Disposition, after: Disposition, skipped: bool)

  function SummaryStatus(success: nat, fail: nat): Status {
    if fail > 0 && success > 0 then StatusPartial
    else if fail > 0 then StatusFailed
    else StatusSuccess
  }

  type Results = map<Id, Result>
  type Articles = map<Id, Article>

  predicate Own(results: Results, orgId: Id, r: Id) {
    r in results && results[r].orgId == orgId
  }

  /** Result r is one the batch works on. */
  predicate Due(results: Results, orgId: Id, r: Id) {
    Own(results, orgId, r) && !results[r].disposition.Offlined?
  }

  /** The article can be offlined for this organisation. */
  predicate CanOffline(articles: Articles, orgId: Id, a: Id) {
    && a != 0 && a in articles && articles[a].orgId == orgId
    && (articles[a].state == ONLINE || articles[a].state == OFFLINE || articles[a].state == OFFLINE_SYNC)
  }

  function StateAfter(state: int): int {
    if state == ONLINE then OFFLINE else state
  }

  predicate Succeeds(results: Results, articles: Articles, orgId: Id, r: Id) {
    Due(results, orgId, r) && CanOffline(articles, orgId, results[r].articleId)
  }

  /** Some result in `done` that the batch worked on belongs to article a. */
  ghost predicate Touched(results: Results, orgId: Id, done: set<Id>, a: Id) {
    exists r | r in done :: Due(results, orgId, r) && results[r].articleId == a
  }

  function OfflinedResult(results: Results, articles: Articles, orgId: Id, r: Id, actionId: Id): Result
    requires r in results
  {
    if Succeeds(results, articles, orgId, r)
    then results[r].(articleState := StateAfter(articles[results[r].articleId].state), disposition := Offlined, latestAction := actionId)
    else results[r]
  }

  ghost function OfflinedArticle(results: Results, articles: Articles, orgId: Id, done: set<Id>, a: Id): Article
    requires a in articles
  {
    if CanOffline(articles, orgId, a) && Touched(results, orgId, done, a)
    then articles[a].(state := StateAfter(articles[a].state))
    else articles[a]
  }

  /** The tables after the batch has worked through the results in `done`. */
  ghost predicate BatchEffect(results: Results, articles: Articles, orgId: Id, actionId: Id, done: set<Id>,
                              results': Results, articles': Articles)
  {
    && results'.Keys == results.Keys
    && articles'.Keys == articles.Keys
    && (forall r | r in results ::
          results'[r] == if r in done then OfflinedResult(results, articles, orgId, r, actionId) else results[r])
    && (forall a | a in articles :: articles'[a] == OfflinedArticle(results, articles, orgId, done, a))
  }

  ghost function Successes(results: Results, articles: Articles, orgId: Id, done: set<Id>): set<Id> {
    set r | r in done && Succeeds(results, articles, orgId, r)
  }

  ghost function Skips(results: Results, orgId: Id, done: set<Id>): set<Id> {
    set r | r in done && !Due(results, orgId, r)
  }

  ghost predicate BatchCounts(results: Results, articles: Articles, orgId: Id, done: set<Id>, s: Summary) {
    && s.success == |Successes(results, articles, orgId, done)|
    && s.skip == |Skips(results, orgId, done)|
    && s.success + s.fail + s.skip == |done|
  }

  lemma CountsExtend(results: Results, articles: Articles, orgId: Id, done: set<Id>, r: Id, s: Summary, s': Summary)
    requires BatchCounts(results, articles, orgId, done, s) && r !in done
    requires s' == if Succeeds(results, articles, orgId, r) then s.(success := s.success + 1)
                   else if Due(results, orgId, r) then s.(fail := s.fail + 1)
                   else s.(skip := s.skip + 1)
    ensures BatchCounts(results, articles, orgId, done + {r}, s')
  {
    SuccessesExtend(results, articles, orgId, done, r);
    SkipsExtend(results, orgId, done, r);
  }

  lemma SuccessesExtend(results: Results, articles: Articles, orgId: Id, done: set<Id>, r: Id)
    requires r !in done
    ensures |Successes(results, articles, orgId, done + {r})| ==
      |Successes(results, articles, orgId, done)| + if Succeeds(results, articles, orgId, r) then 1 else 0
  {
    var was, now := Successes(results, articles, orgId, done), Successes(results, articles, orgId, done + {r});
    if Succeeds(results, articles, orgId, r) {
      assert now == was + {r};
    } else {
      assert now == was;
    }
  }

  lemma SkipsExtend(results: Results, orgId: Id, done: set<Id>, r: Id)
    requires r !in done
    ensures |Skips(results, orgId, done + {r})| == |Skips(results, orgId, done)| + if Due(results, orgId, r) then 0 else 1
  {
    var was, now := Skips(results, orgId, done), Skips(results, orgId, done + {r});
    if Due(results, orgId, r) {
      assert now == was;
    } else {
      assert now == was + {r};
    }
  }

  lemma TouchedExtends(results: Results, orgId: Id, done: set<Id>, r: Id, a: Id)
    ensures Touched(results, orgId, done + {r}, a) <==> Touched(results, orgId, done, a) || (Due(results, orgId, r) && results[r].articleId == a)
  {
    if Touched(results, orgId, done, a) {
      var q :| q in done && Due(results, orgId, q) && results[q].articleId == a;
      assert q in done + {r};
    }
    if Due(results, orgId, r) {
      assert r in done + {r};
    }
  }

  /** What an article looks like when result r's turn comes, whoever shares it: offlined or not, it can be
      offlined exactly when it could be at the start, and ends in the same state. */
  lemma SharedArticle(results: Results, articles: Articles, orgId: Id, done: set<Id>, articles': Articles, a: Id)
    requires articles'.Keys == articles.Keys && forall b | b in articles :: articles'[b] == OfflinedArticle(results, articles, orgId, done, b)
    ensures CanOffline(articles', orgId, a) <==> CanOffline(articles, orgId, a)
    ensures CanOffline(articles, orgId, a) ==> StateAfter(articles'[a].state) == StateAfter(articles[a].state)
  {
  }

  /** One more result: the step of the batch loop. */
  lemma EffectExtends(results: Results, articles: Articles, orgId: Id, actionId: Id, done: set<Id>, r: Id,
                      results1: Results, articles1: Articles, results2: Results, articles2: Articles)
    requires BatchEffect(results, articles, orgId, actionId, done, results1, articles1) && r !in done
    requires results2 == if Succeeds(results1, articles1, orgId, r)
                         then results1[r := OfflinedResult(results1, articles1, orgId, r, actionId)] else results1
    requires articles2 == if Succeeds(results1, articles1, orgId, r)
                          then var a := results1[r].articleId; articles1[a := articles1[a].(state := StateAfter(articles1[a].state))] else articles1
    ensures BatchEffect(results, articles, orgId, actionId, done + {r}, results2, articles2)
  {
    if r in results {
      SharedArticle(results, articles, orgId, done, articles1, results[r].articleId);
    }
    forall a | a in articles ensures articles2[a] == OfflinedArticle(results, articles, orgId, done + {r}, a) {
      TouchedExtends(results, orgId, done, r, a);
    }
  }

  /** What the counters of a batch say, read off the tables as they were: a requested id is a success when it
      is a result of the organisation, not offlined yet, whose article is one of the organisation in state 7, 8
      or 9; it is skipped when there is no such result to work on; it fails otherwise. */
  ghost predicate CountsMean(results: Results, articles: Articles, orgId: Id, done: set<Id>, s: Summary) {
    && s.success == |ReadyOnes(results, articles, orgId, done)|
    && s.fail == |UnreadyOnes(results, articles, orgId, done)|
    && s.skip == |IdleOnes(results, orgId, done)|
    && StatusMeans(s)
  }

  ghost function ReadyOnes(results: Results, articles: Articles, orgId: Id, done: set<Id>): set<Id> {
    set r | r in done && IsDue(results, orgId, r) && IsReady(articles, orgId, results[r].articleId)
  }

  ghost function UnreadyOnes(results: Results, articles: Articles, orgId: Id, done: set<Id>): set<Id> {
    set r | r in done && IsDue(results, orgId, r) && !IsReady(articles, orgId, results[r].articleId)
  }

  ghost function IdleOnes(results: Results, orgId: Id, done: set<Id>): set<Id> {
    set r | r in done && !IsDue(results, orgId, r)
  }

  lemma ThreeParts(all: set<Id>, a: set<Id>, b: set<Id>, c: set<Id>)
    requires all == a + b + c && a !! b && a !! c && b !! c
    ensures |all| == |a| + |b| + |c|
  {
    assert |a + b + c| == |a + b| + |c| && |a + b| == |a| + |b|;
  }

  lemma DueIsDue(results: Results, articles: Articles, orgId: Id, r: Id)
    requires orgId != 0
    ensures IsDue(results, orgId, r) <==> Due(results, orgId, r)
    ensures IsDue(results, orgId, r) ==>
      (IsReady(articles, orgId, results[r].articleId) <==> Succeeds(results, articles, orgId, r))
  {
  }

  predicate IsDue(results: Results, orgId: Id, r: Id) {
    r in results && results[r].orgId == orgId && results[r].disposition != Offlined
  }

  predicate IsReady(articles: Articles, orgId: Id, a: Id) {
    a != 0 && a in articles && articles[a].orgId == orgId && 7 <= articles[a].state <= 9
  }

  /** Success when nothing failed, failed when nothing succeeded, partial when there was both. */
  predicate StatusMeans(s: Summary) {
    && (s.status.StatusSuccess? <==> s.fail == 0)
    && (s.status.StatusFailed? <==> s.fail > 0 && s.success == 0)
    && (s.status.StatusPartial? <==> s.fail > 0 && s.success > 0)
  }

  lemma ReadyAre(results: Results, articles: Articles, orgId: Id, done: set<Id>)
    requires orgId != 0
    ensures ReadyOnes(results, articles, orgId, done) == Successes(results, articles, orgId, done)
  {
    forall r | r in done ensures r in ReadyOnes(results, articles, orgId, done) <==> r in Successes(results, articles, orgId, done) {
      DueIsDue(results, articles, orgId, r);
    }
  }

  lemma IdleAre(results: Results, articles: Articles, orgId: Id, done: set<Id>)
    requires orgId != 0
    ensures IdleOnes(results, orgId, done) == Skips(results, orgId, done)
  {
    forall r | r in done ensures r in IdleOnes(results, orgId, done) <==> r in Skips(results, orgId, done) {
      DueIsDue(results, articles, orgId, r);
    }
  }

  lemma DoneParts(results: Results, articles: Articles, orgId: Id, done: set<Id>)
    ensures |done| == |ReadyOnes(results, articles, orgId, done)| + |UnreadyOnes(results, articles, orgId, done)| + |IdleOnes(results, orgId, done)|
  {
    ThreeParts(done, ReadyOnes(results, articles, orgId, done), UnreadyOnes(results, articles, orgId, done), IdleOnes(results, orgId, done));
  }

  lemma CountsAreMeant(results: Results, articles: Articles, orgId: Id, done: set<Id>, s: Summary)
    requires orgId != 0 && BatchCounts(results, articles, orgId, done, s) && s.status == SummaryStatus(s.success, s.fail)
    ensures CountsMean(results, articles, orgId, done, s)
  {
    ReadyAre(results, articles, orgId, done);
    IdleAre(results, articles, orgId, done);
    DoneParts(results, articles, orgId, done);
  }

  class ActionService {
    const lifecycle: LifecycleService
    var results: Results
    var logs: seq<DispositionLog>

    constructor (lifecycle: LifecycleService, results: Results)
      ensures this.lifecycle == lifecycle && this.results == results && logs == []
    {
      this.lifecycle, this.results, logs := lifecycle, results, [];
    }

    /** One round of the BatchOffline loop. */
    method OfflineOne(orgId: Id, actionId: Id, r: Id, so: Summary) returns (s: Summary)
      requires orgId != 0
      modifies this`results, lifecycle
      ensures s == if Succeeds(old(results), old(lifecycle.articles), orgId, r) then so.(success := so.success + 1)
                   else if Due(old(results), orgId, r) then so.(fail := so.fail + 1)
                   else so.(skip := so.skip + 1)
      ensures results == if Succeeds(old(results), old(lifecycle.articles), orgId, r)
                         then old(results)[r := OfflinedResult(old(results), old(lifecycle.articles), orgId, r, actionId)] else old(results)
      ensures lifecycle.articles ==
        if Succeeds(old(results), old(lifecycle.articles), orgId, r)
        then var a := old(results)[r].articleId; old(lifecycle.articles)[a := old(lifecycle.articles)[a].(state := StateAfter(old(lifecycle.articles)[a].state))]
        else old(lifecycle.articles)
      ensures lifecycle.bodies == old(lifecycle.bodies) && lifecycle.changes == old(lifecycle.changes)
    {
      s := so;
      if r !in results || results[r].orgId != orgId {
        return s.(skip := s.skip + 1);
      }
      if results[r].disposition.Offlined? {
        return s.(skip := s.skip + 1);
      }
      var reply := lifecycle.OfflineArticle(orgId, results[r].articleId);
      if !reply.Done? {
        return s.(fail := s.fail + 1);
      }
      results := results[r := results[r].(articleState := reply.after, disposition := Offlined, latestAction := actionId)];
      return s.(success := s.success + 1);
    }

    /** BatchOffline over any list of ids, also when several results share one article. */
    method BatchOffline(orgId: Id, actionId: Id, ids: seq<Id>) returns (ok: bool, s: Summary, ghost done: set<Id>)
      modifies this`results, lifecycle
      ensures ok <==> orgId != 0 && ids != []
      ensures !ok ==> results == old(results) && lifecycle.Tables() == old(lifecycle.Tables())
      ensures ok ==> done == RequestedIds(ids) && s.targets == |ids|
      ensures ok ==> BatchEffect(old(results), old(lifecycle.articles), orgId, actionId, done, results, lifecycle.articles)
      ensures ok ==> BatchCounts(old(results), old(lifecycle.articles), orgId, done, s) && s.status == SummaryStatus(s.success, s.fail)
      ensures ok ==> CountsMean(old(results), old(lifecycle.articles), orgId, done, s)
      ensures ok ==> s.success + s.fail + s.skip <= s.targets
    {
      ok, s, done := orgId != 0 && |ids| != 0, Summary(|ids|, 0, 0, 0, StatusSuccess), {};
      if !ok {
        return;
      }
      var unique := ActionUniqueIds(ids);
      ghost var before, articles := results, lifecycle.articles;
      EmptyEffect(before, articles, orgId, actionId);
      for i := 0 to |unique|
        invariant BatchEffect(before, articles, orgId, actionId, done, results, lifecycle.articles)
        invariant BatchCounts(before, articles, orgId, done, s) && s.targets == |ids|
        invariant AreFirst(unique, i, done)
      {
        var r := unique[i];
        NextId(unique, i, done);
        ghost var s0, results0, articles0 := s, results, lifecycle.articles;
        s := OfflineOne(orgId, actionId, r, s);
        BatchStep(before, articles, orgId, actionId, done, r, results0, articles0, results, lifecycle.articles, s0, s);
        done := done + {r};
      }
      AllDone(ids, unique, done);
      s := s.(status := SummaryStatus(s.success, s.fail));
      CountsAreMeant(before, articles, orgId, done, s);
    }

    /** One round of the applyDisposition loop; one log is written per result found. */
    method DisposeOne(orgId: Id, actionId: Id, r: Id, target: Disposition, so: Summary) returns (s: Summary)
      modifies `results, `logs
      ensures
        if Own(old(results), orgId, r) && old(results)[r].disposition != target
        then results == old(results)[r := old(results)[r].(disposition := target, latestAction := actionId)] && s == so.(success := so.success + 1)
        else results == old(results) && s == so.(skip := so.skip + 1)
      ensures logs == old(logs) +
        if Own(old(results), orgId, r)
        then [DispositionLog(r, old(results)[r].articleId, old(results)[r].disposition, target, old(results)[r].disposition == target)] else []
    {
      s := so;
      if r !in results || results[r].orgId != orgId {
        return s.(skip := s.skip + 1);
      }
      var result := results[r];
      var skipped := result.disposition == target;
      if skipped {
        s := s.(skip := s.skip + 1);
      } else {
        results := results[r := result.(disposition := target, latestAction := actionId)];
        s := s.(success := s.success + 1);
      }
      logs := logs + [DispositionLog(r, result.articleId, result.disposition, target, skipped)];
    }

    /** applyDisposition, behind BatchIgnore and BatchProcess: success counts the results that changed, all
        others are skipped. */
    method ApplyDisposition(orgId: Id, actionId: Id, ids: seq<Id>, target: Disposition)
        returns (ok: bool, s: Summary, ghost done: set<Id>)
      modifies `results, `logs
      ensures ok <==> orgId != 0 && ids != []
      ensures !ok ==> results == old(results) && logs == old(logs)
      ensures ok ==> done == RequestedIds(ids) && s.targets == |ids|
      ensures ok ==> Disposed(old(results), orgId, actionId, target, done, results)
      ensures ok ==> DisposedCounts(old(results), orgId, target, done, s)
      ensures ok ==> s.success + s.fail + s.skip <= s.targets && s.status == SummaryStatus(s.success, s.fail) && StatusMeans(s)
      ensures ok ==> Logged(old(results), orgId, target, done, old(logs), logs)
    {
      ok, s, done := orgId != 0 && |ids| != 0, Summary(|ids|, 0, 0, 0, StatusSuccess), {};
      if !ok {
        return;
      }
      var unique := ActionUniqueIds(ids);
      ghost var before := results;
      assert Changed(before, orgId, target, {}) == {};
      assert logs[|old(logs)|..] == [];
      for i := 0 to |unique|
        invariant Disposed(before, orgId, actionId, target, done, results)
        invariant DisposedCounts(before, orgId, target, done, s) && s.targets == |ids|
        invariant AreFirst(unique, i, done)
        invariant Logged(before, orgId, target, done, old(logs), logs)
      {
        var r := unique[i];
        NextId(unique, i, done);
        ghost var s0, results0, logs0 := s, results, logs;
        s := DisposeOne(orgId, actionId, r, target, s);
        LogStep(before, results0, orgId, actionId, target, unique, i, done, old(logs), logs0, logs);
        DisposedExtends(before, orgId, actionId, target, done, r, results0, results, s0, s);
        done := done + {r};
      }
      AllDone(ids, unique, done);
      s := s.(status := SummaryStatus(s.success, s.fail));
    }
  }

  /** The logs of a disposition batch: one for each result of the organisation among the requested ids, in
      ascending order, with what the result was before. */
  ghost predicate LoggedOnce(results: Results, orgId: Id, target: Disposition, done: set<Id>, logs: seq<DispositionLog>) {
    && (forall k | 0 <= k < |logs| ::
          logs[k].resultId in done && Own(results, orgId, logs[k].resultId)
          && logs[k] == LogOf(results[logs[k].resultId], logs[k].resultId, target))
    && (forall j, k | 0 <= j < k < |logs| :: logs[j].resultId < logs[k].resultId)
    && (forall r | r in done && Own(results, orgId, r) :: HasLog(logs, r))
  }

  predicate HasLog(logs: seq<DispositionLog>, r: Id) {
    exists k | 0 <= k < |logs| :: logs[k].resultId == r
  }

  function LogOf(result: Result, r: Id, target: Disposition): DispositionLog {
    DispositionLog(r, result.articleId, result.disposition, target, result.disposition == target)
  }

  function NewLog(results: Results, orgId: Id, target: Disposition, r: Id): seq<DispositionLog> {
    if Own(results, orgId, r) then [LogOf(results[r], r, target)] else []
  }

  lemma NextLog(results: Results, orgId: Id, target: Disposition, done: set<Id>, r: Id, logs: seq<DispositionLog>)
    requires LoggedOnce(results, orgId, target, done, logs)
    ensures (forall q | q in done :: q < r) ==> LoggedOnce(results, orgId, target, done + {r}, logs + NewLog(results, orgId, target, r))
  {
    var more := logs + NewLog(results, orgId, target, r);
    forall q | q in done + {r} && Own(results, orgId, q) ensures HasLog(more, q) {
      if q in done {
        var k :| 0 <= k < |logs| && logs[k].resultId == q;
        assert more[k].resultId == q;
      } else {
        assert more[|logs|].resultId == q;
      }
    }
  }

  ghost predicate Logged(results: Results, orgId: Id, target: Disposition, done: set<Id>, before: seq<DispositionLog>, logs: seq<DispositionLog>) {
    before <= logs && LoggedOnce(results, orgId, target, done, logs[|before|..])
  }

  lemma LogStep(results: Results, results1: Results, orgId: Id, actionId: Id, target: Disposition, unique: seq<Id>, i: nat, done: set<Id>,
                before: seq<DispositionLog>, logs1: seq<DispositionLog>, logs2: seq<DispositionLog>)
    requires Ascending(unique) && i < |unique| && AreFirst(unique, i, done)
    requires Logged(results, orgId, target, done, before, logs1) && unique[i] !in done
    requires Disposed(results, orgId, actionId, target, done, results1)
    requires logs2 == logs1 + NewLog(results1, orgId, target, unique[i])
    ensures Logged(results, orgId, target, done + {unique[i]}, before, logs2)
  {
    var r := unique[i];
    LaterIds(unique, i, done);
    NextLog(results, orgId, target, done, r, logs1[|before|..]);
    assert NewLog(results1, orgId, target, r) == NewLog(results, orgId, target, r);
    assert logs2[|before|..] == logs1[|before|..] + NewLog(results, orgId, target, r);
  }

  lemma LaterIds(unique: seq<Id>, i: nat, done: set<Id>)
    requires Ascending(unique) && i < |unique| && AreFirst(unique, i, done)
    ensures forall q | q in done :: q < unique[i]
  {
    forall q | q in done ensures q < unique[i] {
      var k :| 0 <= k < i && unique[..i][k] == q;
    }
  }

  function RequestedIds(ids: seq<Id>): set<Id> {
    set r | r in ids && r != 0
  }

  /** `done` holds the first i ids. */
  ghost predicate AreFirst(unique: seq<Id>, i: nat, done: set<Id>) {
    i <= |unique| && |done| == i && forall r :: r in done <==> r in unique[..i]
  }

  lemma NextId(unique: seq<Id>, i: nat, done: set<Id>)
    requires Ascending(unique) && i < |unique| && AreFirst(unique, i, done)
    ensures unique[i] !in done && AreFirst(unique, i + 1, done + {unique[i]})
  {
    assert unique[i] !in unique[..i];
    assert unique[..i + 1] == unique[..i] + [unique[i]];
  }

  lemma AllDone(ids: seq<Id>, unique: seq<Id>, done: set<Id>)
    requires IsUniqueIds(ids, unique) && AreFirst(unique, |unique|, done)
    ensures done == RequestedIds(ids)
  {
    assert unique[..|unique|] == unique;
  }

  /** One round of the batch, on tables and counters. */
  lemma BatchStep(results: Results, articles: Articles, orgId: Id, actionId: Id, done: set<Id>, r: Id,
                  results1: Results, articles1: Articles, results2: Results, articles2: Articles, s1: Summary, s2: Summary)
    requires BatchEffect(results, articles, orgId, actionId, done, results1, articles1) && r !in done
    requires BatchCounts(results, articles, orgId, done, s1)
    requires results2 == if Succeeds(results1, articles1, orgId, r)
                         then results1[r := OfflinedResult(results1, articles1, orgId, r, actionId)] else results1
    requires articles2 == if Succeeds(results1, articles1, orgId, r)
                          then var a := results1[r].articleId; articles1[a := articles1[a].(state := StateAfter(articles1[a].state))] else articles1
    requires s2 == if Succeeds(results1, articles1, orgId, r) then s1.(success := s1.success + 1)
                   else if Due(results1, orgId, r) then s1.(fail := s1.fail + 1)
                   else s1.(skip := s1.skip + 1)
    ensures BatchEffect(results, articles, orgId, actionId, done + {r}, results2, articles2)
    ensures BatchCounts(results, articles, orgId, done + {r}, s2)
  {
    SameVerdict(results, articles, orgId, actionId, done, results1, articles1, r);
    EffectExtends(results, articles, orgId, actionId, done, r, results1, articles1, results2, articles2);
    CountsExtend(results, articles, orgId, done, r, s1, s2);
  }

  lemma EmptyEffect(results: Results, articles: Articles, orgId: Id, actionId: Id)
    ensures BatchEffect(results, articles, orgId, actionId, {}, results, articles)
    ensures forall s: Summary | s.success == s.fail == s.skip == 0 :: BatchCounts(results, articles, orgId, {}, s)
  {
    assert Successes(results, articles, orgId, {}) == {};
    assert Skips(results, orgId, {}) == {};
  }

  /** Whether result r succeeds can be read off the tables as they were before the batch. */
  lemma SameVerdict(results: Results, articles: Articles, orgId: Id, actionId: Id, done: set<Id>, results1: Results, articles1: Articles, r: Id)
    requires BatchEffect(results, articles, orgId, actionId, done, results1, articles1) && r !in done
    ensures Succeeds(results1, articles1, orgId, r) <==> Succeeds(results, articles, orgId, r)
    ensures Due(results1, orgId, r) <==> Due(results, orgId, r)
  {
    if r in results {
      SharedArticle(results, articles, orgId, done, articles1, results[r].articleId);
    }
  }

  /** What a batch means for each result: it is offlined exactly when it already was, or it was requested by
      its own organisation and its article could be offlined; a success shows the state its article ends
      in; results of other organisations are as they were. */
  lemma BatchResults(results: Results, articles: Articles, orgId: Id, actionId: Id, done: set<Id>, results': Results, articles': Articles, r: Id)
    requires BatchEffect(results, articles, orgId, actionId, done, results', articles') && r in results
    ensures results'[r].disposition.Offlined? <==>
      results[r].disposition.Offlined? || (r in done && results[r].orgId == orgId && CanOffline(articles, orgId, results[r].articleId))
    ensures r in Successes(results, articles, orgId, done) ==>
      results[r].articleId in articles' && results'[r].articleState == articles'[results[r].articleId].state
    ensures results[r].orgId != orgId ==> results'[r] == results[r]
    ensures
      if r in done && IsDue(results, orgId, r) && IsReady(articles, orgId, results[r].articleId)
      then results'[r] == results[r].(articleState := if articles[results[r].articleId].state == 7 then 7 else 8,
                                      disposition := Offlined, latestAction := actionId)
      else results'[r] == results[r]
  {
    if r in Successes(results, articles, orgId, done) {
      assert Touched(results, orgId, done, results[r].articleId);
    }
  }

  /** What a batch means for each article: the online articles of the results it worked on go offline, and
      nothing else about any article changes. */
  lemma BatchArticles(results: Results, articles: Articles, orgId: Id, actionId: Id, done: set<Id>, results': Results, articles': Articles, a: Id)
    requires BatchEffect(results, articles, orgId, actionId, done, results', articles') && a in articles
    ensures articles'[a] ==
      if a != 0 && articles[a].orgId == orgId && articles[a].state == ONLINE && Touched(results, orgId, done, a)
      then articles[a].(state := OFFLINE) else articles[a]
  {
  }

  // ---------- ignore and process ----------

  /** Results in `done` of the organisation get the target disposition; nothing else changes. */
  ghost predicate Disposed(results: Results, orgId: Id, actionId: Id, target: Disposition, done: set<Id>, results': Results) {
    && results'.Keys == results.Keys
    && (forall r | r in results ::
          results'[r] == if r in done && results[r].orgId == orgId && results[r].disposition != target
                         then results[r].(disposition := target, latestAction := actionId) else results[r])
  }

  ghost function Changed(results: Results, orgId: Id, target: Disposition, done: set<Id>): set<Id> {
    set r | r in done && Own(results, orgId, r) && results[r].disposition != target
  }

  ghost predicate DisposedCounts(results: Results, orgId: Id, target: Disposition, done: set<Id>, s: Summary) {
    s.fail == 0 && s.success == |Changed(results, orgId, target, done)| && s.success + s.skip == |done|
  }

  lemma DisposedExtends(results: Results, orgId: Id, actionId: Id, target: Disposition, done: set<Id>, r: Id,
                        results1: Results, results2: Results, s1: Summary, s2: Summary)
    requires Disposed(results, orgId, actionId, target, done, results1) && DisposedCounts(results, orgId, target, done, s1) && r !in done
    requires
      if Own(results1, orgId, r) && results1[r].disposition != target
      then results2 == results1[r := results1[r].(disposition := target, latestAction := actionId)] && s2 == s1.(success := s1.success + 1)
      else results2 == results1 && s2 == s1.(skip := s1.skip + 1)
    ensures Disposed(results, orgId, actionId, target, done + {r}, results2)
    ensures DisposedCounts(results, orgId, target, done + {r}, s2)
  {
    ChangedExtends(results, orgId, target, done, r);
  }

  lemma ChangedExtends(results: Results, orgId: Id, target: Disposition, done: set<Id>, r: Id)
    requires r !in done
    ensures |Changed(results, orgId, target, done + {r})| ==
      |Changed(results, orgId, target, done)| + if Own(results, orgId, r) && results[r].disposition != target then 1 else 0
  {
    var was, now := Changed(results, orgId, target, done), Changed(results, orgId, target, done + {r});
    if Own(results, orgId, r) && results[r].disposition != target {
      assert now == was + {r};
    } else {
      assert now == was;
    }
  }

  /** Repeating an ignore or process batch, with any list of the same ids, changes nothing: no success, and
      every result is as the first batch left it. */
  lemma RepeatChangesNothing(results: Results, orgId: Id, actionId: Id, again: Id, target: Disposition, done: set<Id>,
                             results1: Results, results2: Results, s: Summary)
    requires Disposed(results, orgId, actionId, target, done, results1)
    requires Disposed(results1, orgId, again, target, done, results2) && DisposedCounts(results1, orgId, target, done, s)
    ensures results2 == results1 && s.success == 0 && s.skip == |done|
  {
    assert Changed(results1, orgId, target, done) == {};
  }
}
