/**
 The result tables of a task and how one article's hits are stored
 (internal/modules/articleinspect/worker/executor.go, persistArticleResult and the distinct counters).
 */
module Results {
  import opened Common
  import Scanner

  datatype Key = Key(orgId: Id, taskId: Id, articleId: Id)

  datatype Result = Result(
    key: Key,
    articleState: int,
    riskLevel: string,
    suggestAction: string,
    hitFields: nat,
    hitKeywords: nat,
    hitCount: nat)

  datatype HitRow = HitRow(key: Key, resultId: Id, hit: Scanner.Hit)

  function Fields(hits: seq<Scanner.Hit>): set<Scanner.Scope> {
    set k | 0 <= k < |hits| :: hits[k].fieldName
  }

  function Keywords(hits: seq<Scanner.Hit>): set<Id> {
    set k | 0 <= k < |hits| :: hits[k].keywordId
  }

  method UniqueFieldCount(hits: seq<Scanner.Hit>) returns (n: nat)
    ensures n == |Fields(hits)|
  {
    var seen: set<Scanner.Scope> := {};
    for i := 0 to |hits|
      invariant seen == Fields(hits[..i])
    {
      seen := seen + {hits[i].fieldName};
    }
    assert hits[..|hits|] == hits;
    n := |seen|;
  }

  method UniqueKeywordCount(hits: seq<Scanner.Hit>) returns (n: nat)
    ensures n == |Keywords(hits)|
  {
    var seen: set<Id> := {};
    for i := 0 to |hits|
      invariant seen == Keywords(hits[..i])
    {
      seen := seen + {hits[i].keywordId};
    }
    assert hits[..|hits|] == hits;
    n := |seen|;
  }

  /** DELETE ... WHERE the key columns match. */
  function Without(rows: seq<HitRow>, key: Key): seq<HitRow> {
    if rows == [] then []
    else
      var rest, last := Without(rows[..|rows| - 1], key), rows[|rows| - 1];
      if last.key == key then rest else rest + [last]
  }

  /** The hit rows stored for a result, in order. */
  function HitsOf(rows: seq<HitRow>, resultId: Id): seq<Scanner.Hit> {
    if rows == [] then []
    else
      var rest, last := HitsOf(rows[..|rows| - 1], resultId), rows[|rows| - 1];
      if last.resultId == resultId then rest + [last.hit] else rest
  }

  function NewRows(key: Key, resultId: Id, hits: seq<Scanner.Hit>): seq<HitRow> {
    if hits == [] then []
    else NewRows(key, resultId, hits[..|hits| - 1]) + [HitRow(key, resultId, hits[|hits| - 1])]
  }

  /** The result row describes exactly the hits stored with it. */
  predicate Summarises(result: Result, hits: seq<Scanner.Hit>) {
    && hits != []
    && result.hitCount == |hits|
    && result.hitFields == |Fields(hits)|
    && result.hitKeywords == |Keywords(hits)|
    && result.riskLevel == hits[0].riskLevel
    && result.suggestAction == hits[0].suggestAction
  }

  /** What storing keeps true of the two tables together. */
  ghost predicate Consistent(results: map<Id, Result>, rows: seq<HitRow>, nextId: Id) {
    && (forall r | r in results :: r < nextId)
    && (forall q, r | q in results && r in results && results[q].key == results[r].key :: q == r)
    && Anchored(results, rows)
    && (forall r | r in results :: Summarises(results[r], HitsOf(rows, r)))
  }

  ghost predicate Anchored(results: map<Id, Result>, rows: seq<HitRow>) {
    forall i | 0 <= i < |rows| :: rows[i].resultId in results && results[rows[i].resultId].key == rows[i].key
  }

  function WithKey(results: map<Id, Result>, key: Key): set<Id> {
    set r | r in results && results[r].key == key
  }

  // ---------- how the two tables move together ----------

  lemma {:induction false} WithoutKeepsOthers(results: map<Id, Result>, rows: seq<HitRow>, key: Key, r: Id)
    requires Anchored(results, rows) && r in results && results[r].key != key
    ensures HitsOf(Without(rows, key), r) == HitsOf(rows, r)
  {
    if rows != [] {
      var init, last := rows[..|rows| - 1], rows[|rows| - 1];
      assert Anchored(results, init);
      WithoutKeepsOthers(results, init, key, r);
      if last.key != key {
        assert (Without(init, key) + [last])[..|Without(init, key)|] == Without(init, key);
      } else {
        assert results[rows[|rows| - 1].resultId].key == key;
      }
    }
  }

  lemma {:induction false} WithoutAnchored(results: map<Id, Result>, rows: seq<HitRow>, key: Key)
    requires Anchored(results, rows)
    ensures Anchored(results - WithKey(results, key), Without(rows, key))
  {
    if rows != [] {
      var init := rows[..|rows| - 1];
      assert Anchored(results, init);
      WithoutAnchored(results, init, key);
    }
  }

  lemma {:induction false} NewRowsAre(key: Key, resultId: Id, hits: seq<Scanner.Hit>)
    ensures |NewRows(key, resultId, hits)| == |hits|
    ensures forall i | 0 <= i < |hits| :: NewRows(key, resultId, hits)[i] == HitRow(key, resultId, hits[i])
  {
    if hits != [] {
      NewRowsAre(key, resultId, hits[..|hits| - 1]);
    }
  }

  /** Appending the rows of a new result adds its hits there and nowhere else. */
  lemma {:induction false} AppendHits(rows: seq<HitRow>, key: Key, resultId: Id, hits: seq<Scanner.Hit>, r: Id)
    ensures HitsOf(rows + NewRows(key, resultId, hits), r) == HitsOf(rows, r) + if r == resultId then hits else []
  {
    if hits == [] {
      assert rows + [] == rows;
    } else {
      var init, last := hits[..|hits| - 1], hits[|hits| - 1];
      AppendHits(rows, key, resultId, init, r);
      AppendOne(rows, NewRows(key, resultId, init), HitRow(key, resultId, last), r);
      assert hits == init + [last];
    }
  }

  lemma AppendOne(rows: seq<HitRow>, more: seq<HitRow>, last: HitRow, r: Id)
    ensures HitsOf(rows + (more + [last]), r) == HitsOf(rows + more, r) + if last.resultId == r then [last.hit] else []
  {
    var all := rows + (more + [last]);
    assert all[..|all| - 1] == rows + more && all[|all| - 1] == last;
  }

  lemma {:induction false} NoHitsOfNewId(results: map<Id, Result>, rows: seq<HitRow>, r: Id)
    requires Anchored(results, rows) && r !in results
    ensures HitsOf(rows, r) == []
  {
    if rows != [] {
      assert Anchored(results, rows[..|rows| - 1]);
      NoHitsOfNewId(results, rows[..|rows| - 1], r);
    }
  }

  /** The tables after storing `result` with its hits in place of whatever its key held. */
  ghost predicate Stored(results: map<Id, Result>, rows: seq<HitRow>, id: Id, result: Result, hits: seq<Scanner.Hit>,
                         results': map<Id, Result>, rows': seq<HitRow>)
  {
    && results' == (results - WithKey(results, result.key))[id := result]
    && rows' == Without(rows, result.key) + NewRows(result.key, id, hits)
  }

  lemma StoreAnchored(results: map<Id, Result>, rows: seq<HitRow>, id: Id, result: Result, hits: seq<Scanner.Hit>,
                      results': map<Id, Result>, rows': seq<HitRow>)
    requires Anchored(results, rows) && id !in results && Stored(results, rows, id, result, hits, results', rows')
    ensures Anchored(results', rows')
  {
    var left := Without(rows, result.key);
    WithoutAnchored(results, rows, result.key);
    NewRowsAre(result.key, id, hits);
    forall i | 0 <= i < |rows'| ensures rows'[i].resultId in results' && results'[rows'[i].resultId].key == rows'[i].key {
      if i < |left| {
        assert rows'[i] == left[i];
      }
    }
  }

  lemma HitsAfterStore(results: map<Id, Result>, rows: seq<HitRow>, id: Id, key: Key, hits: seq<Scanner.Hit>, r: Id)
    requires Anchored(results, rows) && id !in results
    requires r == id || (r in results && results[r].key != key)
    ensures HitsOf(Without(rows, key) + NewRows(key, id, hits), r) == if r == id then hits else HitsOf(rows, r)
  {
    var left := Without(rows, key);
    AppendHits(left, key, id, hits, r);
    if r == id {
      WithoutAnchored(results, rows, key);
      NoHitsOfNewId(results - WithKey(results, key), left, id);
      assert [] + hits == hits;
    } else {
      WithoutKeepsOthers(results, rows, key, r);
      assert HitsOf(left, r) + [] == HitsOf(left, r);
    }
  }

  /** Storing an article's hits keeps the tables consistent: one result per key, each with its own hits. */
  lemma StoreKeepsConsistent(results: map<Id, Result>, rows: seq<HitRow>, id: Id, result: Result, hits: seq<Scanner.Hit>,
                             results': map<Id, Result>, rows': seq<HitRow>)
    requires Consistent(results, rows, id) && Summarises(result, hits) && Stored(results, rows, id, result, hits, results', rows')
    ensures Consistent(results', rows', id + 1)
    ensures HitsOf(rows', id) == hits
    ensures forall r | r in results' && r != id :: r in results && results'[r] == results[r] && HitsOf(rows', r) == HitsOf(rows, r)
  {
    StoreAnchored(results, rows, id, result, hits, results', rows');
    HitsAfterStore(results, rows, id, result.key, hits, id);
    forall r | r in results' && r != id
      ensures r in results && results'[r] == results[r] && HitsOf(rows', r) == HitsOf(rows, r)
    {
      HitsAfterStore(results, rows, id, result.key, hits, r);
    }
  }

  class ResultStore {
    var results: map<Id, Result>
    var hitRows: seq<HitRow>
    var nextId: Id

    constructor ()
      ensures results == map[] && hitRows == [] && nextId == 1
    {
      results, hitRows, nextId := map[], [], 1;
    }

    /** persistArticleResult as one transaction that commits when `commits`. Whatever the key held before is
        replaced, so storing twice leaves what the second call stored. */
    method Persist(key: Key, articleState: int, hits: seq<Scanner.Hit>, commits: bool)
      requires hits != [] && Consistent(results, hitRows, nextId)
      modifies this
      ensures Consistent(results, hitRows, nextId)
      ensures !commits ==> results == old(results) && hitRows == old(hitRows) && nextId == old(nextId)
      ensures commits ==>
        && nextId == old(nextId) + 1
        && old(nextId) in results
        && results[old(nextId)].key == key && results[old(nextId)].articleState == articleState
        && HitsOf(hitRows, old(nextId)) == hits
        && (forall r | r in results && r != old(nextId) ::
              r in old(results) && results[r] == old(results)[r] && HitsOf(hitRows, r) == HitsOf(old(hitRows), r))
        && (forall r | r in old(results) && old(results)[r].key != key :: r in results)
        && Stored(old(results), old(hitRows), old(nextId), results[old(nextId)], hits, results, hitRows)
    {
      if !commits {
        return;
      }
      var fields := UniqueFieldCount(hits);
      var keywords := UniqueKeywordCount(hits);
      var result := Result(key, articleState, hits[0].riskLevel, hits[0].suggestAction, fields, keywords, |hits|);
      ghost var before, rowsBefore := results, hitRows;
      hitRows := Without(hitRows, key);
      results := (results - WithKey(results, key))[nextId := result];
      hitRows := hitRows + NewRows(key, nextId, hits);
      StoreKeepsConsistent(before, rowsBefore, nextId, result, hits, results, hitRows);
      nextId := nextId + 1;
    }
  }
}
