/**
 The scan executor: cursor-paged reading of the candidate articles, one scan per article, and the
 counters and final status of the task (internal/modules/articleinspect/worker/executor.go, rules.go and
 articles/repository_candidates.go).
 */
module Executor {
  import opened Common
  import opened Scanner
  import opened Results
  import Query
  import Text

  type Table = map<Id, Article>

  const STATE_ONLINE := 9
  const MAX_ID: Id := 0x1_0000_0000_0000_0000

  /** A primary-keyed table of articles with uint64 auto-increment ids. */
  ghost predicate ValidTable(table: Table) {
    forall id | id in table :: table[id].id == id && 0 < id < MAX_ID
  }

  /** The candidate filter. Publish times, here and in articles, are whole Unix seconds, as the query compares
      them. */
  datatype Filter = Filter(
    orgId: Id,
    state: int,
    publishStart: Option<Time>,
    publishEnd: Option<Time>,
    articleId: Id,
    titleLike: string)

  predicate Matches(f: Filter, a: Article) {
    var like := Text.Trim(f.titleLike);
    && a.orgId == f.orgId
    && a.state == (if f.state == 0 then STATE_ONLINE else f.state)
    && (f.publishStart.Some? ==> f.publishStart.value <= a.publishAt)
    && (f.publishEnd.Some? ==> a.publishAt <= f.publishEnd.value)
    && (f.articleId != 0 ==> a.id == f.articleId)
    && (like != "" ==> Text.IndexFrom(a.title, like, 0) >= 0)
  }

  /** Each condition of the filter on its own, when it is set: bounds include their ends, and no state asked for
      means online. */
  lemma FilterConditions(f: Filter, a: Article, t: Time, id: Id)
    requires id != 0
    ensures Matches(f.(state := 0), a) <==> Matches(f.(state := 9), a)
    ensures Matches(f.(publishStart := Some(t)), a) <==> Matches(f.(publishStart := None), a) && a.publishAt >= t
    ensures Matches(f.(publishEnd := Some(t)), a) <==> Matches(f.(publishEnd := None), a) && a.publishAt <= t
    ensures Matches(f.(articleId := id), a) <==> Matches(f.(articleId := 0), a) && a.id == id
  {
  }

  /** Without optional conditions: the organisation and the state; a title text must occur in the title. */
  lemma BareFilter(f: Filter, a: Article, text: string)
    ensures Matches(Filter(f.orgId, f.state, None, None, 0, ""), a) <==>
      a.orgId == f.orgId && a.state == if f.state == 0 then 9 else f.state
    ensures Matches(Filter(f.orgId, f.state, None, None, 0, text), a) <==>
      && Matches(Filter(f.orgId, f.state, None, None, 0, ""), a)
      && (Text.Trim(text) == "" || exists p :: Text.OccursAt(a.title, Text.Trim(text), p))
  {
    assert Text.Trimmed("");
    TitleOccurs(a.title, Text.Trim(text));
  }

  lemma TitleOccurs(title: string, like: string)
    ensures Text.IndexFrom(title, like, 0) >= 0 <==> exists p :: Text.OccursAt(title, like, p)
  {
    var r := Text.IndexFrom(title, like, 0);
    assert r >= 0 ==> Text.OccursAt(title, like, r);
  }

  type Want = Article -> bool

  function Wanted(f: Filter): Want {
    (a: Article) => Matches(f, a)
  }

  /** Articles past the cursor that the filter selects, keyed for ORDER BY id. */
  function Candidates(table: Table, want: Want, after: Id): map<Id, int> {
    map id | id in table && want(table[id]) && (after != 0 ==> id > after) :: 0
  }

  function ClampLimit(limit: int): nat {
    if limit <= 0 then 50 else if limit > 200 then 200 else limit
  }

  function LastId(items: seq<Article>): Id {
    if items == [] then 0 else items[|items| - 1].id
  }

  function Ids(items: seq<Article>): (r: seq<Id>)
    ensures |r| == |items| && forall k | 0 <= k < |items| :: r[k] == items[k].id
  {
    seq(|items|, k requires 0 <= k < |items| => items[k].id)
  }

  ghost predicate IsPage(table: Table, want: Want, after: Id, limit: nat, items: seq<Article>) {
    && Query.IsFirst(Candidates(table, want, after), limit, Ids(items))
    && forall k | 0 <= k < |items| :: items[k].id in table && items[k] == table[items[k].id]
  }

  method ListCandidateArticles(table: Table, f: Filter, after: Id, limit: int) returns (ok: bool, items: seq<Article>, next: Id)
    requires ValidTable(table)
    ensures ok <==> f.orgId != 0
    ensures !ok ==> items == [] && next == 0
    ensures ok ==> IsPage(table, Wanted(f), after, ClampLimit(limit), items)
    ensures ok ==> next == LastId(items)
    ensures ok ==> Listed(table, f, after, if limit <= 0 then 50 else if limit > 200 then 200 else limit, items)
  {
    ok, items, next := f.orgId != 0, [], 0;
    if !ok {
      return;
    }
    var ids := Query.SelectFirst(Candidates(table, Wanted(f), after), ClampLimit(limit));
    items := seq(|ids|, k requires 0 <= k < |ids| => table[ids[k]]);
    assert Ids(items) == ids;
    PageIsListed(table, f, after, ClampLimit(limit), items);
    if items != [] {
      next := items[|items| - 1].id;
    }
  }

  // ---------- pages ----------

  /** Everything the filter selects, once, in ascending id order: the answer of one unpaged scan. */
  ghost predicate IsFullScan(table: Table, want: Want, scanned: seq<Article>) {
    IsPage(table, want, 0, |Candidates(table, want, 0)|, scanned)
  }

  lemma PageAscends(table: Table, want: Want, after: Id, limit: nat, items: seq<Article>)
    requires ValidTable(table) && IsPage(table, want, after, limit, items)
    ensures Ascending(Ids(items))
    ensures forall k | 0 <= k < |items| :: items[k].id > after && items[k].id < MAX_ID
  {
    var ids := Ids(items);
    forall k | 0 <= k < |items| ensures items[k].id > after && items[k].id < MAX_ID {
      assert ids[k] in Candidates(table, want, after);
    }
    forall i, j | 0 <= i < j < |ids| ensures ids[i] < ids[j] {
      assert Query.Before(Candidates(table, want, after), ids[i], ids[j]);
    }
  }

  /** A page leaves no gap: a candidate up to its last id is on it, and a short page holds all that is left. */
  lemma PageHasNoGap(table: Table, want: Want, after: Id, limit: nat, items: seq<Article>, id: Id)
    requires IsPage(table, want, after, limit, items) && id in Candidates(table, want, after)
    requires (items != [] && id <= items[|items| - 1].id) || |items| < limit
    ensures id in Ids(items)
  {
    var key, ids := Candidates(table, want, after), Ids(items);
    if |items| < limit {
      Query.FirstIsAll(key, limit, ids);
    }
  }

  /** What has been scanned when the cursor stands at `after`, on a table that does not change. */
  ghost predicate ScannedUpTo(table: Table, want: Want, after: Id, scanned: seq<Article>) {
    && (forall id :: id in Ids(scanned) <==> id in Candidates(table, want, 0) && id <= after)
    && (forall k | 0 <= k < |scanned| :: scanned[k].id in table && scanned[k] == table[scanned[k].id])
  }

  lemma IdsConcat(a: seq<Article>, b: seq<Article>)
    ensures Ids(a + b) == Ids(a) + Ids(b)
  {
  }

  lemma NextPage(table: Table, want: Want, after: Id, limit: nat, scanned: seq<Article>, items: seq<Article>)
    requires ValidTable(table) && ScannedUpTo(table, want, after, scanned)
    requires IsPage(table, want, after, limit, items) && items != []
    ensures ScannedUpTo(table, want, items[|items| - 1].id, scanned + items)
  {
    PageAscends(table, want, after, limit, items);
    IdsConcat(scanned, items);
    var last := items[|items| - 1].id;
    forall id ensures id in Ids(scanned + items) <==> id in Candidates(table, want, 0) && id <= last {
      if id in Ids(items) {
        var k :| 0 <= k < |items| && Ids(items)[k] == id;
        assert Ids(items)[k] in Candidates(table, want, after);
      } else if id in Candidates(table, want, 0) && after < id <= last {
        PageHasNoGap(table, want, after, limit, items, id);
      }
    }
  }

  lemma ScannedAllIsFullScan(table: Table, want: Want, after: Id, scanned: seq<Article>)
    requires ScannedUpTo(table, want, after, scanned) && Ascending(Ids(scanned))
    requires forall id | id in Candidates(table, want, 0) :: id <= after
    ensures IsFullScan(table, want, scanned)
  {
    var key, ids := Candidates(table, want, 0), Ids(scanned);
    Query.DistinctSize(ids);
    assert (set k | 0 <= k < |ids| :: ids[k]) == key.Keys;
    forall i, j | 0 <= i < j < |ids| ensures ids[i] in key && ids[j] in key && Query.Before(key, ids[i], ids[j]) {
    }
  }

  /** A page read off the table itself: matching articles past the cursor, in strictly ascending id order, at most
      `limit` of them; a matching article is missing only when the page is full and ends before it. */
  ghost predicate Listed(table: Table, f: Filter, after: Id, limit: nat, items: seq<Article>) {
    && (forall k | 0 <= k < |items| ::
          items[k].id in table && items[k] == table[items[k].id] && Matches(f, items[k]) && items[k].id > after)
    && Ascending(Ids(items))
    && |items| <= limit
    && (forall id | id in table && Matches(f, table[id]) && id > after :: id in Ids(items) || (|items| == limit && id > LastId(items)))
  }

  lemma PageIsListed(table: Table, f: Filter, after: Id, limit: nat, items: seq<Article>)
    requires ValidTable(table) && IsPage(table, Wanted(f), after, limit, items) && limit > 0
    ensures Listed(table, f, after, limit, items)
  {
    PageAscends(table, Wanted(f), after, limit, items);
    var key := Candidates(table, Wanted(f), after);
    forall k | 0 <= k < |items| ensures Matches(f, items[k]) {
      assert Ids(items)[k] in key;
    }
    forall id | id in table && Matches(f, table[id]) && id > after ensures id in Ids(items) || (|items| == limit && id > LastId(items)) {
      assert id in key;
      if id <= LastId(items) || |items| < limit {
        PageHasNoGap(table, Wanted(f), after, limit, items, id);
      }
    }
  }

  // ---------- counters ----------

  /** What the environment does: the table each page query sees, which page queries fail, what scanning
      an article yields (None is a scan error), and whether storing an article's result commits. */
  datatype World = World(
    tables: nat -> Table,
    listFails: nat -> bool,
    scan: Article -> Option<seq<Hit>>,
    commits: Id -> bool)

  ghost predicate ValidWorld(w: World) {
    forall k :: ValidTable(w.tables(k))
  }

  datatype Fate = ScanError | Clean | Kept(hits: nat) | StoreError(hits: nat)

  function FateOf(w: World, a: Article): Fate {
    match w.scan(a)
    case None => ScanError
    case Some(hits) =>
      if |hits| == 0 then Clean
      else if w.commits(a.id) then Kept(|hits|)
      else StoreError(|hits|)
  }

  datatype Counters = Counters(total: nat, hitArticles: nat, hitCount: nat, fails: nat)

  /** How many of the scanned articles met a fate. */
  ghost function Number(w: World, scanned: seq<Article>, counts: Fate -> bool): nat {
    if scanned == [] then 0
    else Number(w, scanned[..|scanned| - 1], counts) + if counts(FateOf(w, scanned[|scanned| - 1])) then 1 else 0
  }

  /** The hits of all scanned articles together, stored or not. */
  ghost function TotalHits(w: World, scanned: seq<Article>): nat {
    if scanned == [] then 0
    else
      var hits := w.scan(scanned[|scanned| - 1]);
      TotalHits(w, scanned[..|scanned| - 1]) + if hits.None? then 0 else |hits.value|
  }

  /** The article could not be scanned, or its hits could not be stored. */
  predicate Fails(w: World, a: Article) {
    w.scan(a).None? || (w.scan(a).value != [] && !w.commits(a.id))
  }

  predicate HasHits(w: World, a: Article) {
    w.scan(a).Some? && w.scan(a).value != []
  }

  type Check = Article -> bool

  /** The positions of the scanned articles that pass a check. */
  ghost function Positions(scanned: seq<Article>, check: Check): set<int> {
    set k | 0 <= k < |scanned| && check(scanned[k])
  }

  lemma PositionsExtend(scanned: seq<Article>, a: Article, check: Check)
    ensures |Positions(scanned + [a], check)| == |Positions(scanned, check)| + if check(a) then 1 else 0
  {
    var more := scanned + [a];
    assert forall k | 0 <= k < |scanned| :: more[k] == scanned[k];
    assert Positions(more, check) == Positions(scanned, check) + if check(a) then {|scanned|} else {};
  }

  function Failing(w: World): Check {
    (a: Article) => Fails(w, a)
  }

  function Hitting(w: World): Check {
    (a: Article) => HasHits(w, a)
  }

  /** The numbers of fates, counted on the articles themselves. */
  lemma {:induction false} FatesCount(w: World, scanned: seq<Article>)
    ensures ScanErrors(w, scanned) + StoreErrors(w, scanned) == |Positions(scanned, Failing(w))|
    ensures KeptOnes(w, scanned) + StoreErrors(w, scanned) == |Positions(scanned, Hitting(w))|
  {
    if scanned == [] {
      assert Positions(scanned, Failing(w)) == {} && Positions(scanned, Hitting(w)) == {};
    } else {
      var init, last := scanned[..|scanned| - 1], scanned[|scanned| - 1];
      FatesCount(w, init);
      PositionsExtend(init, last, Failing(w));
      PositionsExtend(init, last, Hitting(w));
      assert scanned == init + [last];
    }
  }

  lemma NonePasses(scanned: seq<Article>, check: Check)
    ensures |Positions(scanned, check)| == 0 <==> forall k | 0 <= k < |scanned| :: !check(scanned[k])
  {
    if |Positions(scanned, check)| == 0 {
      forall k | 0 <= k < |scanned| ensures !check(scanned[k]) {
        assert k !in Positions(scanned, check);
      }
    } else {
      var k :| k in Positions(scanned, check);
    }
  }

  /** How many there are, and whether all pass. */
  lemma {:induction false} AllPass(scanned: seq<Article>, check: Check)
    ensures |Positions(scanned, check)| <= |scanned|
    ensures |Positions(scanned, check)| == |scanned| <==> forall k | 0 <= k < |scanned| :: check(scanned[k])
  {
    if scanned == [] {
      assert Positions(scanned, check) == {};
    } else {
      var init, last := scanned[..|scanned| - 1], scanned[|scanned| - 1];
      AllPass(init, check);
      PositionsExtend(init, last, check);
      assert scanned == init + [last];
    }
  }

  ghost function CleanOnes(w: World, scanned: seq<Article>): nat { Number(w, scanned, (f: Fate) => f.Clean?) }
  ghost function KeptOnes(w: World, scanned: seq<Article>): nat { Number(w, scanned, (f: Fate) => f.Kept?) }
  ghost function ScanErrors(w: World, scanned: seq<Article>): nat { Number(w, scanned, (f: Fate) => f.ScanError?) }
  ghost function StoreErrors(w: World, scanned: seq<Article>): nat { Number(w, scanned, (f: Fate) => f.StoreError?) }

  /** The counters account for every scanned article. */
  ghost predicate Accounts(w: World, scanned: seq<Article>, c: Counters) {
    && c.total == |scanned| == CleanOnes(w, scanned) + KeptOnes(w, scanned) + c.fails
    && c.fails == ScanErrors(w, scanned) + StoreErrors(w, scanned)
    && c.hitArticles == KeptOnes(w, scanned) + StoreErrors(w, scanned)
    && c.hitCount == TotalHits(w, scanned)
  }

  function Add(c: Counters, fate: Fate): Counters {
    match fate
    case ScanError => c.(total := c.total + 1, fails := c.fails + 1)
    case Clean => c.(total := c.total + 1)
    case Kept(n) => c.(total := c.total + 1, hitArticles := c.hitArticles + 1, hitCount := c.hitCount + n)
    case StoreError(n) =>
      c.(total := c.total + 1, hitArticles := c.hitArticles + 1, hitCount := c.hitCount + n, fails := c.fails + 1)
  }

  lemma AccountsExtends(w: World, scanned: seq<Article>, c: Counters, a: Article)
    requires Accounts(w, scanned, c)
    ensures Accounts(w, scanned + [a], Add(c, FateOf(w, a)))
  {
    var more := scanned + [a];
    assert more[..|more| - 1] == scanned && more[|more| - 1] == a;
  }

  // ---------- stored results ----------

  function TaskRows(results: map<Id, Result>, orgId: Id, taskId: Id): set<Id> {
    set r | r in results && results[r].key.orgId == orgId && results[r].key.taskId == taskId
  }

  ghost function KeptIds(w: World, scanned: seq<Article>): set<Id> {
    set k | 0 <= k < |scanned| && FateOf(w, scanned[k]).Kept? :: scanned[k].id
  }

  /** The task has a result for each article of `kept` and for no other. */
  ghost predicate Reflects(results: map<Id, Result>, orgId: Id, taskId: Id, kept: set<Id>) {
    && (forall r | r in results && r in TaskRows(results, orgId, taskId) :: results[r].key.articleId in kept)
    && (forall a | a in kept :: HasResult(results, Key(orgId, taskId, a)))
  }

  ghost predicate HasResult(results: map<Id, Result>, key: Key) {
    exists r :: r in results && results[r].key == key
  }

  lemma {:induction false} ReflectsSize(results: map<Id, Result>, orgId: Id, taskId: Id, rows: set<Id>, kept: set<Id>)
    requires forall q, r | q in results && r in results && results[q].key == results[r].key :: q == r
    requires forall r | r in rows :: r in results && results[r].key == Key(orgId, taskId, results[r].key.articleId) && results[r].key.articleId in kept
    requires forall a | a in kept :: exists r :: r in rows && r in results && results[r].key == Key(orgId, taskId, a)
    ensures |rows| == |kept|
  {
    if kept == {} {
      assert rows == {};
    } else {
      var a :| a in kept;
      var r :| r in rows && r in results && results[r].key == Key(orgId, taskId, a);
      forall b | b in kept - {a} ensures exists q :: q in rows - {r} && q in results && results[q].key == Key(orgId, taskId, b) {
        var q :| q in rows && q in results && results[q].key == Key(orgId, taskId, b);
        assert q in rows - {r};
      }
      ReflectsSize(results, orgId, taskId, rows - {r}, kept - {a});
    }
  }

  lemma KeptIdsExtends(w: World, scanned: seq<Article>, a: Article)
    ensures KeptIds(w, scanned + [a]) == KeptIds(w, scanned) + if FateOf(w, a).Kept? then {a.id} else {}
  {
    var more := scanned + [a];
    assert more[|scanned|] == a;
    assert forall k | 0 <= k < |scanned| :: more[k] == scanned[k];
  }

  lemma {:induction false} KeptIdsSize(w: World, scanned: seq<Article>)
    requires Ascending(Ids(scanned))
    ensures |KeptIds(w, scanned)| == KeptOnes(w, scanned)
  {
    if scanned != [] {
      var init, last := scanned[..|scanned| - 1], scanned[|scanned| - 1];
      LastIdIsNew(w, scanned);
      KeptIdsSize(w, init);
      KeptIdsExtends(w, init, last);
      assert scanned == init + [last];
    }
  }

  lemma LastIdIsNew(w: World, scanned: seq<Article>)
    requires Ascending(Ids(scanned)) && scanned != []
    ensures
      var init := scanned[..|scanned| - 1];
      Ascending(Ids(init)) && scanned[|scanned| - 1].id !in KeptIds(w, init)
  {
    var init := scanned[..|scanned| - 1];
    assert forall k | 0 <= k < |init| :: Ids(init)[k] == Ids(scanned)[k];
    assert forall k | 0 <= k < |init| :: Ids(scanned)[k] < Ids(scanned)[|init|];
  }

  // ---------- the run ----------

  /** The tables and counters after scanning `scanned`. */
  ghost predicate InStep(w: World, store: ResultStore, orgId: Id, taskId: Id, scanned: seq<Article>, c: Counters)
    reads store
  {
    && Consistent(store.results, store.hitRows, store.nextId)
    && Reflects(store.results, orgId, taskId, KeptIds(w, scanned))
    && (forall r | r in store.results && r in TaskRows(store.results, orgId, taskId) ::
          Holds(w, scanned, store.results[r], HitsOf(store.hitRows, r)))
    && Accounts(w, scanned, c)
  }

  /** The result row and its hits are what scanning one of the articles gave. */
  ghost predicate Holds(w: World, scanned: seq<Article>, result: Result, hits: seq<Hit>) {
    exists k | 0 <= k < |scanned| ::
      scanned[k].id == result.key.articleId && scanned[k].state == result.articleState && w.scan(scanned[k]) == Some(hits)
  }

  lemma HoldsExtends(w: World, scanned: seq<Article>, a: Article, result: Result, hits: seq<Hit>)
    requires Holds(w, scanned, result, hits)
      || (a.id == result.key.articleId && a.state == result.articleState && w.scan(a) == Some(hits))
    ensures Holds(w, scanned + [a], result, hits)
  {
    var more := scanned + [a];
    if Holds(w, scanned, result, hits) {
      var k :| 0 <= k < |scanned| && scanned[k].id == result.key.articleId
        && scanned[k].state == result.articleState && w.scan(scanned[k]) == Some(hits);
      assert more[k] == scanned[k];
    } else {
      assert more[|scanned|] == a;
    }
  }

  /** No result of another task is added, dropped or changed. */
  ghost predicate OthersKept(results: map<Id, Result>, rows: seq<HitRow>, results': map<Id, Result>, rows': seq<HitRow>, orgId: Id, taskId: Id) {
    && (forall r | r in results && !OfTask(results[r], orgId, taskId) ::
          r in results' && results'[r] == results[r] && HitsOf(rows', r) == HitsOf(rows, r))
    && (forall r | r in results' && !OfTask(results'[r], orgId, taskId) :: r in results && results[r] == results'[r])
  }

  predicate OfTask(result: Result, orgId: Id, taskId: Id) {
    result.key.orgId == orgId && result.key.taskId == taskId
  }

  /** One round of the inner loop: scan an article, count it, store its hits. */
  method ScanOne(w: World, store: ResultStore, orgId: Id, taskId: Id, a: Article, before: Counters, ghost scanned: seq<Article>)
      returns (c: Counters)
    requires InStep(w, store, orgId, taskId, scanned, before)
    modifies store
    ensures InStep(w, store, orgId, taskId, scanned + [a], c)
    ensures OthersKept(old(store.results), old(store.hitRows), store.results, store.hitRows, orgId, taskId)
  {
    AccountsExtends(w, scanned, before, a);
    KeptIdsExtends(w, scanned, a);
    forall r | r in store.results && r in TaskRows(store.results, orgId, taskId)
      ensures Holds(w, scanned + [a], store.results[r], HitsOf(store.hitRows, r))
    {
      HoldsExtends(w, scanned, a, store.results[r], HitsOf(store.hitRows, r));
    }
    c := before.(total := before.total + 1);
    var hits := w.scan(a);
    if hits.None? {
      c := c.(fails := c.fails + 1);
      return;
    }
    if |hits.value| == 0 {
      return;
    }
    c := c.(hitArticles := c.hitArticles + 1, hitCount := c.hitCount + |hits.value|);
    ghost var results, id := store.results, store.nextId;
    store.Persist(Key(orgId, taskId, a.id), a.state, hits.value, w.commits(a.id));
    if !w.commits(a.id) {
      c := c.(fails := c.fails + 1);
    } else {
      HoldsExtends(w, scanned, a, store.results[id], hits.value);
      ReflectsExtends(results, id, store.results[id], store.results, orgId, taskId, KeptIds(w, scanned), a.id);
    }
  }

  lemma ReflectsExtends(results: map<Id, Result>, id: Id, result: Result, results': map<Id, Result>,
                        orgId: Id, taskId: Id, kept: set<Id>, article: Id)
    requires Reflects(results, orgId, taskId, kept) && id !in results
    requires result.key == Key(orgId, taskId, article) && results' == (results - WithKey(results, result.key))[id := result]
    ensures Reflects(results', orgId, taskId, kept + {article})
  {
    forall r | r in results' && r in TaskRows(results', orgId, taskId) ensures results'[r].key.articleId in kept + {article} {
      if r != id {
        assert r in TaskRows(results, orgId, taskId);
      }
    }
    forall a | a in kept + {article} ensures HasResult(results', Key(orgId, taskId, a)) {
      if a == article {
        assert results'[id].key == Key(orgId, taskId, a);
      } else {
        var r :| r in results && results[r].key == Key(orgId, taskId, a);
        assert r in results' && results'[r].key == Key(orgId, taskId, a);
      }
    }
  }

  method ScanPage(w: World, store: ResultStore, orgId: Id, taskId: Id, items: seq<Article>, before: Counters, ghost scanned: seq<Article>)
      returns (c: Counters)
    requires InStep(w, store, orgId, taskId, scanned, before)
    modifies store
    ensures InStep(w, store, orgId, taskId, scanned + items, c)
    ensures OthersKept(old(store.results), old(store.hitRows), store.results, store.hitRows, orgId, taskId)
  {
    c := before;
    ghost var all := scanned;
    assert all == scanned + items[..0];
    for i := 0 to |items|
      invariant InStep(w, store, orgId, taskId, all, c)
      invariant all == scanned + items[..i]
      invariant OthersKept(old(store.results), old(store.hitRows), store.results, store.hitRows, orgId, taskId)
    {
      c := ScanOne(w, store, orgId, taskId, items[i], c, all);
      OneMore(scanned, items, i);
      all := all + [items[i]];
    }
    assert items[..|items|] == items;
  }

  lemma OneMore(scanned: seq<Article>, items: seq<Article>, i: nat)
    requires i < |items|
    ensures scanned + items[..i] + [items[i]] == scanned + items[..i + 1]
  {
  }

  datatype RunResult = Completed | ListFailed

  lemma AscendingConcat(scanned: seq<Article>, items: seq<Article>, after: Id)
    requires Ascending(Ids(scanned)) && Ascending(Ids(items))
    requires forall k | 0 <= k < |scanned| :: scanned[k].id <= after
    requires forall k | 0 <= k < |items| :: items[k].id > after
    ensures Ascending(Ids(scanned + items))
  {
    IdsConcat(scanned, items);
  }

  function PageSize(batchSize: int): nat {
    if batchSize <= 0 then 100 else batchSize
  }

  /** The article table does not change while the task runs. */
  ghost predicate Fixed(w: World) {
    forall k :: w.tables(k) == w.tables(0)
  }

  /** The paged scan equals the unpaged one exactly when the page size is within the repository's limit of
      200 or a single page of 200 is enough. With a larger page size, the first 200 articles are all it
      scans. */
  ghost predicate FullExactly(table: Table, want: Want, size: nat, scanned: seq<Article>) {
    && (IsFullScan(table, want, scanned) <==> size <= 200 || |Candidates(table, want, 0)| <= 200)
    && (size > 200 ==> IsPage(table, want, 0, 200, scanned))
  }

  /** The loop invariant: what is known when page number `page` is about to be read past cursor `after`. */
  ghost predicate AtCursor(w: World, want: Want, size: nat, page: nat, after: Id, scanned: seq<Article>) {
    && Ascending(Ids(scanned))
    && (forall k | 0 <= k < |scanned| :: scanned[k].id <= after)
    && after < MAX_ID
    && (page == 0 ==> after == 0 && scanned == [])
    && (page > 0 ==> size <= 200)
    && (Fixed(w) ==> ScannedUpTo(w.tables(0), want, after, scanned))
  }

  lemma NothingLeft(table: Table, want: Want, after: Id, limit: nat, scanned: seq<Article>, items: seq<Article>)
    requires ValidTable(table) && ScannedUpTo(table, want, after, scanned) && Ascending(Ids(scanned)) && limit > 0
    requires IsPage(table, want, after, limit, items) && items == []
    ensures IsFullScan(table, want, scanned)
  {
    forall id | id in Candidates(table, want, 0) ensures id <= after {
      if id > after {
        assert id in Candidates(table, want, after);
        PageHasNoGap(table, want, after, limit, items, id);
      }
    }
    ScannedAllIsFullScan(table, want, after, scanned);
  }

  /** A page shorter than its limit is the end of the candidates. */
  lemma ShortPage(table: Table, want: Want, after: Id, limit: nat, scanned: seq<Article>, items: seq<Article>)
    requires ValidTable(table) && ScannedUpTo(table, want, after, scanned) && Ascending(Ids(scanned + items))
    requires IsPage(table, want, after, limit, items) && 0 < |items| < limit
    ensures IsFullScan(table, want, scanned + items)
  {
    var last := items[|items| - 1].id;
    NextPage(table, want, after, limit, scanned, items);
    PageAscends(table, want, after, limit, items);
    forall id | id in Candidates(table, want, 0) ensures id <= last {
      if id > after {
        assert id in Candidates(table, want, after);
        PageHasNoGap(table, want, after, limit, items, id);
        AscendingBound(items, id);
      }
    }
    ScannedAllIsFullScan(table, want, last, scanned + items);
  }

  lemma AscendingBound(items: seq<Article>, id: Id)
    requires Ascending(Ids(items)) && id in Ids(items)
    ensures id <= items[|items| - 1].id
  {
    var ids := Ids(items);
    var k :| 0 <= k < |ids| && ids[k] == id;
    assert k < |ids| - 1 ==> ids[k] < ids[|ids| - 1];
  }

  /** A first page that the repository cut at 200 is the whole answer when there are no more than 200. */
  lemma CutPage(table: Table, want: Want, items: seq<Article>)
    requires IsPage(table, want, 0, 200, items)
    ensures IsFullScan(table, want, items) <==> |Candidates(table, want, 0)| <= 200
  {
  }

  /** A page size above 200 does miss articles. Take any article a filter selects and a table of 201 copies of
      it under the ids 1 to 201: what the loop promises (FullExactly) is then 200 articles and not the last. */
  lemma OversizedPageMissesArticles(f: Filter, a: Article, size: nat, scanned: seq<Article>)
    requires Matches(f, a) && f.articleId == 0 && size > 200
    requires FullExactly(Clones(a, 201), Wanted(f), size, scanned)
    ensures ValidTable(Clones(a, 201)) && |Candidates(Clones(a, 201), Wanted(f), 0)| == 201
    ensures !IsFullScan(Clones(a, 201), Wanted(f), scanned) && |scanned| == 200
  {
    var table := Clones(a, 201);
    ClonesCount(a, 201);
    assert Candidates(table, Wanted(f), 0).Keys == table.Keys;
    assert |Candidates(table, Wanted(f), 0).Keys| == |table.Keys|;
  }

  function Clones(a: Article, n: nat): Table {
    map id | 1 <= id <= n :: a.(id := id)
  }

  lemma {:induction false} ClonesCount(a: Article, n: nat)
    ensures |Clones(a, n)| == n
  {
    if n > 0 {
      ClonesCount(a, n - 1);
      assert Clones(a, n) == Clones(a, n - 1)[n := a.(id := n)];
    } else {
      assert Clones(a, 0) == map[];
    }
  }

  lemma StopsEmpty(w: World, want: Want, size: nat, page: nat, after: Id, scanned: seq<Article>, items: seq<Article>)
    requires ValidWorld(w) && AtCursor(w, want, size, page, after, scanned) && size > 0 && Fixed(w)
    requires IsPage(w.tables(page), want, after, ClampLimit(size), items) && items == []
    ensures FullExactly(w.tables(0), want, size, scanned)
  {
    assert w.tables(page) == w.tables(0);
    NothingLeft(w.tables(0), want, after, ClampLimit(size), scanned, items);
    if page == 0 {
      assert |Candidates(w.tables(0), want, 0)| == 0;
    }
  }

  lemma StopsShort(w: World, want: Want, size: nat, page: nat, after: Id, scanned: seq<Article>, items: seq<Article>)
    requires ValidWorld(w) && AtCursor(w, want, size, page, after, scanned) && Fixed(w) && Ascending(Ids(scanned + items))
    requires IsPage(w.tables(page), want, after, ClampLimit(size), items) && 0 < |items| < size
    ensures FullExactly(w.tables(0), want, size, scanned + items)
  {
    assert w.tables(page) == w.tables(0);
    if size <= 200 {
      ShortPage(w.tables(0), want, after, size, scanned, items);
    } else {
      assert scanned + items == items;
      CutPage(w.tables(0), want, items);
    }
  }

  lemma PageAppends(w: World, want: Want, size: nat, page: nat, after: Id, scanned: seq<Article>, items: seq<Article>)
    requires ValidWorld(w) && AtCursor(w, want, size, page, after, scanned)
    requires IsPage(w.tables(page), want, after, ClampLimit(size), items) && items != []
    ensures Ascending(Ids(scanned + items))
    ensures after < items[|items| - 1].id
    ensures |items| >= size ==> AtCursor(w, want, size, page + 1, items[|items| - 1].id, scanned + items)
  {
    PageAscends(w.tables(page), want, after, ClampLimit(size), items);
    AscendingConcat(scanned, items, after);
    var all, ids := scanned + items, Ids(scanned + items);
    forall k | 0 <= k < |all| ensures all[k].id <= items[|items| - 1].id {
      assert ids[k] in ids;
      AscendingBound(all, ids[k]);
    }
    if Fixed(w) {
      assert w.tables(page) == w.tables(0);
      NextPage(w.tables(0), want, after, ClampLimit(size), scanned, items);
    }
  }

  type Pages = seq<seq<Article>>

  function Flat(pages: Pages): seq<Article> {
    if pages == [] then [] else Flat(pages[..|pages| - 1]) + pages[|pages| - 1]
  }

  /** Page k was read from the table as it was then, past the last article of the page before. */
  ghost predicate ReadsPage(w: World, want: Want, size: nat, pages: Pages, k: nat)
    requires k < |pages|
  {
    && !w.listFails(k)
    && IsPage(w.tables(k), want, if k == 0 then 0 else LastId(pages[k - 1]), ClampLimit(size), pages[k])
  }

  predicate ShortEnd(pages: Pages, size: nat) {
    pages != [] && |pages[|pages| - 1]| < size
  }

  /** The pages a run has read: each follows on the one before, and none but the last is short. */
  ghost predicate Reads(w: World, want: Want, size: nat, pages: Pages) {
    && (forall k | 0 <= k < |pages| :: ReadsPage(w, want, size, pages, k))
    && (forall k | 0 <= k < |pages| - 1 :: |pages[k]| >= size)
  }

  lemma ReadsOneMore(w: World, want: Want, size: nat, pages: Pages, items: seq<Article>)
    requires Reads(w, want, size, pages) && !ShortEnd(pages, size) && !w.listFails(|pages|)
    requires IsPage(w.tables(|pages|), want, if pages == [] then 0 else LastId(pages[|pages| - 1]), ClampLimit(size), items)
    ensures Reads(w, want, size, pages + [items]) && Flat(pages + [items]) == Flat(pages) + items
  {
    var more := pages + [items];
    assert more[..|more| - 1] == pages;
    forall k | 0 <= k < |more| ensures ReadsPage(w, want, size, more, k) {
      assert k < |pages| ==> ReadsPage(w, want, size, pages, k);
    }
  }

  /** The loop before it asks for the next page: what it knows at its cursor, and the pages behind it. */
  ghost predicate LoopAt(w: World, want: Want, size: nat, after: Id, scanned: seq<Article>, pages: Pages) {
    && AtCursor(w, want, size, |pages|, after, scanned)
    && Reads(w, want, size, pages) && scanned == Flat(pages) && !ShortEnd(pages, size)
    && after == (if pages == [] then 0 else LastId(pages[|pages| - 1]))
  }

  /** What one more page gives: the scan is over when it is short, and otherwise the loop goes on behind it. */
  ghost predicate PageRead(w: World, want: Want, size: nat, after: Id, scanned: seq<Article>, pages: Pages, items: seq<Article>) {
    && Reads(w, want, size, pages + [items]) && scanned + items == Flat(pages + [items])
    && (ShortEnd(pages + [items], size) <==> |items| < size)
    && Ascending(Ids(scanned + items))
    && (items != [] ==> after < LastId(items))
    && (|items| >= size ==> LoopAt(w, want, size, LastId(items), scanned + items, pages + [items]))
    && (|items| < size && Fixed(w) ==> FullExactly(w.tables(0), want, size, scanned + items))
  }

  lemma LoopReads(w: World, want: Want, size: nat, after: Id, scanned: seq<Article>, pages: Pages, items: seq<Article>)
    requires ValidWorld(w) && LoopAt(w, want, size, after, scanned, pages) && !w.listFails(|pages|) && size > 0
    requires IsPage(w.tables(|pages|), want, after, ClampLimit(size), items)
    ensures PageRead(w, want, size, after, scanned, pages, items)
  {
    ReadsOneMore(w, want, size, pages, items);
    if Fixed(w) && |items| < size {
      LoopStops(w, want, size, after, scanned, pages, items);
    }
    if items != [] {
      PageAppends(w, want, size, |pages|, after, scanned, items);
    } else {
      assert scanned + items == scanned;
    }
  }

  lemma LoopStops(w: World, want: Want, size: nat, after: Id, scanned: seq<Article>, pages: Pages, items: seq<Article>)
    requires ValidWorld(w) && LoopAt(w, want, size, after, scanned, pages) && size > 0 && Fixed(w)
    requires IsPage(w.tables(|pages|), want, after, ClampLimit(size), items) && |items| < size
    ensures FullExactly(w.tables(0), want, size, scanned + items)
  {
    if items != [] {
      PageAppends(w, want, size, |pages|, after, scanned, items);
      StopsShort(w, want, size, |pages|, after, scanned, items);
    } else {
      StopsEmpty(w, want, size, |pages|, after, scanned, items);
      assert scanned + items == scanned;
    }
  }

  /** When a run stops: after a short page, or at the first page query that fails; there is no other way. */
  ghost predicate Stops(w: World, size: nat, pages: Pages, result: RunResult) {
    match result
    case Completed => ShortEnd(pages, size)
    case ListFailed => !ShortEnd(pages, size) && w.listFails(|pages|)
  }

  /** One round of the paging loop whose query works: list a page, scan its articles. */
  method ReadPage(w: World, store: ResultStore, orgId: Id, taskId: Id, f: Filter, size: nat, page: nat, after: Id, before: Counters,
                  ghost scanned: seq<Article>, ghost pages: Pages)
      returns (items: seq<Article>, next: Id, c: Counters)
    requires ValidWorld(w) && f.orgId == orgId && orgId != 0 && size > 0 && page == |pages| && !w.listFails(page)
    requires InStep(w, store, orgId, taskId, scanned, before) && LoopAt(w, Wanted(f), size, after, scanned, pages)
    modifies store
    ensures next == LastId(items) && (items == [] ==> c == before && store.results == old(store.results) && store.hitRows == old(store.hitRows))
    ensures InStep(w, store, orgId, taskId, scanned + items, c)
    ensures OthersKept(old(store.results), old(store.hitRows), store.results, store.hitRows, orgId, taskId)
    ensures PageRead(w, Wanted(f), size, after, scanned, pages, items)
  {
    var ok;
    ok, items, next := ListCandidateArticles(w.tables(page), f, after, size);
    LoopReads(w, Wanted(f), size, after, scanned, pages, items);
    c := before;
    if |items| == 0 {
      assert scanned + items == scanned;
      return;
    }
    c := ScanPage(w, store, orgId, taskId, items, c, scanned);
  }

  /** The cursor-paged loop of ExecuteTask. It fails exactly when a page it asks for does. No id is scanned
      twice, even when the table changes between pages; on a table that does not change, FullExactly. */
  method ScanAllPages(w: World, store: ResultStore, orgId: Id, taskId: Id, f: Filter, batchSize: int)
      returns (result: RunResult, c: Counters, ghost scanned: seq<Article>, ghost pages: Pages)
    requires ValidWorld(w) && f.orgId == orgId && orgId != 0
    requires Consistent(store.results, store.hitRows, store.nextId) && TaskRows(store.results, orgId, taskId) == {}
    modifies store
    ensures InStep(w, store, orgId, taskId, scanned, c)
    ensures Ascending(Ids(scanned))
    ensures result.Completed? && Fixed(w) ==> FullExactly(w.tables(0), Wanted(f), PageSize(batchSize), scanned)
    ensures Reads(w, Wanted(f), PageSize(batchSize), pages) && scanned == Flat(pages)
    ensures Stops(w, PageSize(batchSize), pages, result)
    ensures result.ListFailed? <==> exists k | 0 <= k <= |pages| :: w.listFails(k) && !ShortEnd(pages, PageSize(batchSize))
    ensures (forall k :: !w.listFails(k)) ==> result.Completed?
    ensures OthersKept(old(store.results), old(store.hitRows), store.results, store.hitRows, orgId, taskId)
  {
    var size := PageSize(batchSize);
    var after: Id, page := 0, 0;
    c, scanned, pages := Counters(0, 0, 0, 0), [], [];
    while true
      invariant InStep(w, store, orgId, taskId, scanned, c)
      invariant LoopAt(w, Wanted(f), size, after, scanned, pages) && page == |pages|
      invariant OthersKept(old(store.results), old(store.hitRows), store.results, store.hitRows, orgId, taskId)
      decreases MAX_ID - after
    {
      if w.listFails(page) {
        return ListFailed, c, scanned, pages;
      }
      var items, next;
      items, next, c := ReadPage(w, store, orgId, taskId, f, size, page, after, c, scanned, pages);
      if |items| == 0 || |items| < size || next == 0 || next == after {
        return Completed, c, scanned + items, pages + [items];
      }
      after, page, scanned, pages := next, page + 1, scanned + items, pages + [items];
    }
  }

  // ---------- the task ----------

  /** ResolveTaskStatus: success when nothing failed, failed when everything did. */
  function ResolveTaskStatus(total: int, fails: int): TaskStatus {
    if total == 0 then TaskSuccess
    else if fails == 0 then TaskSuccess
    else if fails >= total then TaskFailed
    else TaskPartial
  }

  class TaskRecord {
    var status: TaskStatus
    var counters: Counters

    constructor ()
      ensures status.TaskPending? && counters == Counters(0, 0, 0, 0)
    {
      status, counters := TaskPending, Counters(0, 0, 0, 0);
    }
  }

  datatype Failure = Ok | InvalidInput | NotPending | BadRules | ListError

  /** What a finished run leaves behind: the counters add up over the scanned articles, the task has one
      result per stored article, every result row describes its own hit rows, which are what scanning that
      article gave, and the status follows from the failures. */
  ghost predicate Finished(w: World, store: ResultStore, orgId: Id, taskId: Id, scanned: seq<Article>, c: Counters, status: TaskStatus)
    reads store
  {
    && c.total == |scanned| == CleanOnes(w, scanned) + KeptOnes(w, scanned) + c.fails
    && c.hitCount == TotalHits(w, scanned)
    && |TaskRows(store.results, orgId, taskId)| == c.hitArticles - StoreErrors(w, scanned)
    && (forall r | r in store.results && r in TaskRows(store.results, orgId, taskId) ::
          && Summarises(store.results[r], HitsOf(store.hitRows, r))
          && Holds(w, scanned, store.results[r], HitsOf(store.hitRows, r)))
    && c.fails == |Positions(scanned, Failing(w))| && c.hitArticles == |Positions(scanned, Hitting(w))|
    && (status.TaskSuccess? <==> forall k | 0 <= k < |scanned| :: !Fails(w, scanned[k]))
    && (status.TaskFailed? <==> scanned != [] && forall k | 0 <= k < |scanned| :: Fails(w, scanned[k]))
    && (status.TaskPartial? <==> 0 < c.fails < c.total)
  }

  lemma RunFinishes(w: World, store: ResultStore, orgId: Id, taskId: Id, scanned: seq<Article>, c: Counters)
    requires InStep(w, store, orgId, taskId, scanned, c) && Ascending(Ids(scanned))
    ensures Finished(w, store, orgId, taskId, scanned, c, ResolveTaskStatus(c.total, c.fails))
  {
    KeptIdsSize(w, scanned);
    var rows, kept := TaskRows(store.results, orgId, taskId), KeptIds(w, scanned);
    forall a | a in kept ensures exists r :: r in rows && r in store.results && store.results[r].key == Key(orgId, taskId, a) {
      assert HasResult(store.results, Key(orgId, taskId, a));
      var r :| r in store.results && store.results[r].key == Key(orgId, taskId, a);
      assert r in rows;
    }
    ReflectsSize(store.results, orgId, taskId, rows, kept);
    FatesCount(w, scanned);
    NonePasses(scanned, Failing(w));
    AllPass(scanned, Failing(w));
    assert forall k | 0 <= k < |scanned| :: Failing(w)(scanned[k]) == Fails(w, scanned[k]);
  }

  /** A task that has not started has no results; every call keeps it so. */
  ghost predicate NoEarlyResults(store: ResultStore, task: TaskRecord, orgId: Id, taskId: Id)
    reads store, task
  {
    task.status.TaskPending? ==> TaskRows(store.results, orgId, taskId) == {}
  }

  /** ExecuteTask: compare-and-set to running, decode the rules, scan all pages, write the final status. A
      task that is not pending is left alone. */
  method ExecuteTask(w: World, store: ResultStore, task: TaskRecord, orgId: Id, taskId: Id, rulesDecode: bool, f: Filter, batchSize: int)
      returns (failure: Failure, ghost scanned: seq<Article>, ghost pages: Pages)
    requires ValidWorld(w) && f.orgId == orgId
    requires Consistent(store.results, store.hitRows, store.nextId) && NoEarlyResults(store, task, orgId, taskId)
    modifies store, task
    ensures Consistent(store.results, store.hitRows, store.nextId) && NoEarlyResults(store, task, orgId, taskId)
    ensures orgId == 0 || taskId == 0 || !old(task.status).TaskPending? ==>
      !failure.Ok? && task.status == old(task.status) && task.counters == old(task.counters) && store.results == old(store.results)
    ensures orgId != 0 && taskId != 0 && old(task.status).TaskPending? && !rulesDecode ==>
      failure.BadRules? && task.status.TaskFailed? && task.counters == Counters(0, 0, 0, 0) && store.results == old(store.results)
    ensures failure.InvalidInput? <==> orgId == 0 || taskId == 0
    ensures failure.NotPending? <==> orgId != 0 && taskId != 0 && !old(task.status).TaskPending?
    ensures failure.BadRules? <==> orgId != 0 && taskId != 0 && old(task.status).TaskPending? && !rulesDecode
    ensures failure.Ok? || failure.ListError? ==>
      && Reads(w, Wanted(f), PageSize(batchSize), pages) && scanned == Flat(pages)
      && Stops(w, PageSize(batchSize), pages, if failure.Ok? then Completed else ListFailed)
    ensures (forall k :: !w.listFails(k)) ==> !failure.ListError?
    ensures OthersKept(old(store.results), old(store.hitRows), store.results, store.hitRows, orgId, taskId)
    ensures failure.ListError? ==> task.status.TaskFailed? && Accounts(w, scanned, task.counters)
    ensures failure.Ok? ==>
      && Finished(w, store, orgId, taskId, scanned, task.counters, task.status)
      && Ascending(Ids(scanned))
      && (Fixed(w) ==> FullExactly(w.tables(0), Wanted(f), PageSize(batchSize), scanned))
  {
    scanned, pages := [], [];
    if orgId == 0 || taskId == 0 {
      return InvalidInput, scanned, pages;
    }
    if !task.status.TaskPending? {
      return NotPending, scanned, pages;
    }
    task.status := TaskRunning;
    if !rulesDecode {
      task.status, task.counters := TaskFailed, Counters(0, 0, 0, 0);
      return BadRules, scanned, pages;
    }
    var result, c;
    result, c, scanned, pages := ScanAllPages(w, store, orgId, taskId, f, batchSize);
    task.counters := c;
    if result.ListFailed? {
      task.status := TaskFailed;
      return ListError, scanned, pages;
    }
    task.status := ResolveTaskStatus(c.total, c.fails);
    RunFinishes(w, store, orgId, taskId, scanned, c);
    return Ok, scanned, pages;
  }

  /** With the keyword scanner, the risk level and suggested action of a stored result are those of the
      first rule, in snapshot order, that hits the article. */
  lemma RiskOfFirstRule(cfg: Config, article: Article, rules: seq<Rule>, r: nat, result: Result, hits: seq<Hit>)
    requires hits == ScanHits(ScopeScanner(cfg, article), rules, |rules|) && Summarises(result, hits)
    requires FirstToHit(ScopeScanner(cfg, article), rules, r)
    ensures result.riskLevel == rules[r].riskLevel && result.suggestAction == rules[r].suggestAction
  {
    FirstHitIsFromFirstRule(cfg, article, rules, r);
  }

  /** The executor runs with the keyword scanner over these rules, which never fails. */
  ghost predicate ScansWith(w: World, cfg: Config, rules: seq<Rule>) {
    forall a :: w.scan(a) == Some(ScanHits(ScopeScanner(cfg, a), rules, |rules|))
  }

  /** The result row is of one of the scanned articles, and has the risk level and suggested action of the
      first rule, in snapshot order, that hits it. */
  ghost predicate ShowsFirstRule(cfg: Config, rules: seq<Rule>, scanned: seq<Article>, result: Result) {
    exists k, r: nat ::
      && 0 <= k < |scanned| && scanned[k].id == result.key.articleId
      && FirstToHit(ScopeScanner(cfg, scanned[k]), rules, r)
      && result.riskLevel == rules[r].riskLevel && result.suggestAction == rules[r].suggestAction
  }

  /** After a completed run with the keyword scanner, every result of the task shows the first rule that hits
      its article, and the failures are the results that could not be stored. */
  lemma ResultsShowFirstRule(w: World, store: ResultStore, orgId: Id, taskId: Id, scanned: seq<Article>, c: Counters,
                             status: TaskStatus, cfg: Config, rules: seq<Rule>)
    requires Finished(w, store, orgId, taskId, scanned, c, status) && ScansWith(w, cfg, rules)
    ensures forall r | r in store.results && r in TaskRows(store.results, orgId, taskId) ::
      ShowsFirstRule(cfg, rules, scanned, store.results[r])
    ensures ScanErrors(w, scanned) == 0
  {
    forall r | r in store.results && r in TaskRows(store.results, orgId, taskId)
      ensures ShowsFirstRule(cfg, rules, scanned, store.results[r])
    {
      HeldShowsFirstRule(w, scanned, store.results[r], HitsOf(store.hitRows, r), cfg, rules);
    }
    NoScanErrors(w, scanned, cfg, rules);
  }

  lemma HeldShowsFirstRule(w: World, scanned: seq<Article>, result: Result, hits: seq<Hit>, cfg: Config, rules: seq<Rule>)
    requires Holds(w, scanned, result, hits) && Summarises(result, hits) && ScansWith(w, cfg, rules)
    ensures ShowsFirstRule(cfg, rules, scanned, result)
  {
    var k :| 0 <= k < |scanned| && scanned[k].id == result.key.articleId
      && scanned[k].state == result.articleState && w.scan(scanned[k]) == Some(hits);
    var scan := ScopeScanner(cfg, scanned[k]);
    var r := FindFirst(scan, rules, |rules|);
    RiskOfFirstRule(cfg, scanned[k], rules, r, result, hits);
  }

  lemma {:induction false} NoScanErrors(w: World, scanned: seq<Article>, cfg: Config, rules: seq<Rule>)
    requires ScansWith(w, cfg, rules)
    ensures ScanErrors(w, scanned) == 0
  {
    if scanned != [] {
      NoScanErrors(w, scanned[..|scanned| - 1], cfg, rules);
    }
  }
}
