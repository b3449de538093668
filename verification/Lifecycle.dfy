/**
 Article life cycle with its audit logs (internal/modules/articleinspect/lifecycle). Each operation is
 atomic and its log is written. Operations are functions on the tables; the service methods are proved to
 compute them.
 */
module Lifecycle {
  import opened Common

  const AUDIT_PENDING := 1
  const OFFLINE_SYNC := 7
  const OFFLINE := 8
  const ONLINE := 9

  datatype Article = Article(
    orgId: Id,
    state: int,
    title: string,
    shortTitle: Option<string>,   // nullable column
    richTitle: string,
    keyword: string,
    desc: string)

  /** The fields an editor may rectify; a NULL short title reads as "". */
  datatype Fields = Fields(title: string, shortTitle: string, richTitle: string, keyword: string, desc: string, body: string)

  datatype FieldName = Title | ShortTitle | RichTitle | Keyword | Desc | Body

  datatype Change = Change(field: FieldName, before: string, after: string)

  datatype Operation = OfflineOp | RectifyOp | RepublishOp

  datatype OperationLog = OperationLog(orgId: Id, articleId: Id, operation: Operation, before: int, after: int, skipped: bool)

  datatype ChangeLog = ChangeLog(orgId: Id, articleId: Id, change: Change)

  datatype Db = Db(
    articles: map<Id, Article>,
    bodies: map<Id, string>,
    operations: seq<OperationLog>,
    changes: seq<ChangeLog>)

  datatype Reply = InvalidInput | NotFound | WrongState | Done(before: int, after: int, skipped: bool)

  // ---------- field diffs ----------

  function AppendFieldChange(changes: seq<Change>, field: FieldName, before: string, after: string): seq<Change> {
    if before == after then changes else changes + [Change(field, before, after)]
  }

  function DiffEditableFields(before: Fields, after: Fields): seq<Change> {
    var c1 := AppendFieldChange([], Title, before.title, after.title);
    var c2 := AppendFieldChange(c1, ShortTitle, before.shortTitle, after.shortTitle);
    var c3 := AppendFieldChange(c2, RichTitle, before.richTitle, after.richTitle);
    var c4 := AppendFieldChange(c3, Keyword, before.keyword, after.keyword);
    var c5 := AppendFieldChange(c4, Desc, before.desc, after.desc);
    AppendFieldChange(c5, Body, before.body, after.body)
  }

  function SetField(f: Fields, field: FieldName, value: string): Fields {
    match field
    case Title => f.(title := value)
    case ShortTitle => f.(shortTitle := value)
    case RichTitle => f.(richTitle := value)
    case Keyword => f.(keyword := value)
    case Desc => f.(desc := value)
    case Body => f.(body := value)
  }

  function GetField(f: Fields, field: FieldName): string {
    match field
    case Title => f.title
    case ShortTitle => f.shortTitle
    case RichTitle => f.richTitle
    case Keyword => f.keyword
    case Desc => f.desc
    case Body => f.body
  }

  /** Undo changes from last to first. */
  function UndoChanges(f: Fields, changes: seq<Change>): Fields
    decreases |changes|
  {
    if changes == [] then f
    else
      var last := changes[|changes| - 1];
      UndoChanges(SetField(f, last.field, last.before), changes[..|changes| - 1])
  }

  lemma UndoAppend(f: Fields, changes: seq<Change>, field: FieldName, before: string, after: string)
    requires GetField(f, field) == after
    ensures UndoChanges(f, AppendFieldChange(changes, field, before, after)) == UndoChanges(SetField(f, field, before), changes)
  {
    if before == after {
      assert SetField(f, field, before) == f;
    } else {
      var all := changes + [Change(field, before, after)];
      assert all[..|all| - 1] == changes;
    }
  }

  /** Undoing a diff gives back the old fields, and there is a diff exactly when something changed. */
  lemma DiffUndoes(before: Fields, after: Fields)
    ensures UndoChanges(after, DiffEditableFields(before, after)) == before
    ensures DiffEditableFields(before, after) == [] <==> before == after
  {
    var c1 := AppendFieldChange([], Title, before.title, after.title);
    var c2 := AppendFieldChange(c1, ShortTitle, before.shortTitle, after.shortTitle);
    var c3 := AppendFieldChange(c2, RichTitle, before.richTitle, after.richTitle);
    var c4 := AppendFieldChange(c3, Keyword, before.keyword, after.keyword);
    var c5 := AppendFieldChange(c4, Desc, before.desc, after.desc);
    UndoAppend(after, c5, Body, before.body, after.body);
    var f5 := after.(body := before.body);
    UndoAppend(f5, c4, Desc, before.desc, after.desc);
    var f4 := f5.(desc := before.desc);
    UndoAppend(f4, c3, Keyword, before.keyword, after.keyword);
    var f3 := f4.(keyword := before.keyword);
    UndoAppend(f3, c2, RichTitle, before.richTitle, after.richTitle);
    var f2 := f3.(richTitle := before.richTitle);
    UndoAppend(f2, c1, ShortTitle, before.shortTitle, after.shortTitle);
    var f1 := f2.(shortTitle := before.shortTitle);
    UndoAppend(f1, [], Title, before.title, after.title);
  }

  /** The position of a field in a diff. */
  function Place(field: FieldName): nat {
    match field
    case Title => 0
    case ShortTitle => 1
    case RichTitle => 2
    case Keyword => 3
    case Desc => 4
    case Body => 5
  }

  /** The list names exactly the fields among the first n that differ, each once, in order, with the text before
      and the text after. */
  ghost predicate ListsChanges(before: Fields, after: Fields, changes: seq<Change>, n: nat) {
    && (forall k | 0 <= k < |changes| :: IsChange(before, after, changes[k]) && Place(changes[k].field) < n)
    && (forall j, k | 0 <= j < k < |changes| :: Place(changes[j].field) < Place(changes[k].field))
    && (forall f: FieldName | Place(f) < n && GetField(before, f) != GetField(after, f) :: Names(changes, f))
  }

  predicate IsChange(before: Fields, after: Fields, change: Change) {
    && change.before == GetField(before, change.field) && change.after == GetField(after, change.field)
    && change.before != change.after
  }

  ghost predicate Names(changes: seq<Change>, field: FieldName) {
    exists k :: 0 <= k < |changes| && changes[k].field == field
  }

  lemma ListsOneMore(before: Fields, after: Fields, changes: seq<Change>, field: FieldName)
    requires ListsChanges(before, after, changes, Place(field))
    ensures ListsChanges(before, after,
      AppendFieldChange(changes, field, GetField(before, field), GetField(after, field)), Place(field) + 1)
  {
    var more := AppendFieldChange(changes, field, GetField(before, field), GetField(after, field));
    forall f: FieldName | Place(f) <= Place(field) && GetField(before, f) != GetField(after, f) ensures Names(more, f) {
      if f == field {
        assert more[|changes|].field == f;
      } else {
        var k :| 0 <= k < |changes| && changes[k].field == f;
        assert more[k].field == f;
      }
    }
  }

  /** A diff is that list for all six fields. */
  lemma DiffLists(before: Fields, after: Fields)
    ensures ListsChanges(before, after, DiffEditableFields(before, after), 6)
  {
    var c1 := AppendFieldChange([], Title, before.title, after.title);
    var c2 := AppendFieldChange(c1, ShortTitle, before.shortTitle, after.shortTitle);
    var c3 := AppendFieldChange(c2, RichTitle, before.richTitle, after.richTitle);
    var c4 := AppendFieldChange(c3, Keyword, before.keyword, after.keyword);
    var c5 := AppendFieldChange(c4, Desc, before.desc, after.desc);
    ListsOneMore(before, after, [], Title);
    ListsOneMore(before, after, c1, ShortTitle);
    ListsOneMore(before, after, c2, RichTitle);
    ListsOneMore(before, after, c3, Keyword);
    ListsOneMore(before, after, c4, Desc);
    ListsOneMore(before, after, c5, Body);
  }

  /** Make changes from first to last. */
  function RedoChanges(f: Fields, changes: seq<Change>): Fields
    decreases |changes|
  {
    if changes == [] then f
    else
      var last := changes[|changes| - 1];
      SetField(RedoChanges(f, changes[..|changes| - 1]), last.field, last.after)
  }

  lemma GetSet(f: Fields, field: FieldName, value: string, other: FieldName)
    ensures GetField(SetField(f, field, value), other) == if other == field then value else GetField(f, other)
  {
  }

  lemma NamesLast(changes: seq<Change>, f: FieldName)
    requires changes != []
    ensures Names(changes, f) <==> Names(changes[..|changes| - 1], f) || changes[|changes| - 1].field == f
  {
    var init := changes[..|changes| - 1];
    if Names(changes, f) {
      var k :| 0 <= k < |changes| && changes[k].field == f;
      assert k < |init| ==> init[k].field == f;
    }
    if Names(init, f) {
      var k :| 0 <= k < |init| && init[k].field == f;
      assert changes[k].field == f;
    }
  }

  /** What redoing a list of changes does to one field: the text after, when it is named. */
  lemma {:induction false} RedoneField(before: Fields, after: Fields, changes: seq<Change>, n: nat, f: FieldName)
    requires ListsChanges(before, after, changes, n)
    ensures GetField(RedoChanges(before, changes), f) == if Names(changes, f) then GetField(after, f) else GetField(before, f)
  {
    if changes != [] {
      var init, last := changes[..|changes| - 1], changes[|changes| - 1];
      InitLists(before, after, changes, n);
      RedoneField(before, after, init, Place(last.field), f);
      NamesLast(changes, f);
      GetSet(RedoChanges(before, init), last.field, last.after, f);
    }
  }

  lemma InitLists(before: Fields, after: Fields, changes: seq<Change>, n: nat)
    requires ListsChanges(before, after, changes, n) && changes != []
    ensures
      var init, last := changes[..|changes| - 1], changes[|changes| - 1];
      ListsChanges(before, after, init, Place(last.field)) && Place(last.field) < n
  {
    var init, last := changes[..|changes| - 1], changes[|changes| - 1];
    forall f: FieldName | Place(f) < Place(last.field) && GetField(before, f) != GetField(after, f) ensures Names(init, f) {
      var k :| 0 <= k < |changes| && changes[k].field == f;
      assert init[k].field == f;
    }
  }

  lemma SameFields(a: Fields, b: Fields)
    requires forall f: FieldName :: GetField(a, f) == GetField(b, f)
    ensures a == b
  {
    assert GetField(a, Title) == GetField(b, Title) && GetField(a, ShortTitle) == GetField(b, ShortTitle);
    assert GetField(a, RichTitle) == GetField(b, RichTitle) && GetField(a, Keyword) == GetField(b, Keyword);
    assert GetField(a, Desc) == GetField(b, Desc) && GetField(a, Body) == GetField(b, Body);
  }

  /** Redoing a diff on the old fields gives the new ones. */
  lemma DiffRedoes(before: Fields, after: Fields)
    ensures RedoChanges(before, DiffEditableFields(before, after)) == after
  {
    var changes := DiffEditableFields(before, after);
    DiffLists(before, after);
    forall f: FieldName ensures GetField(RedoChanges(before, changes), f) == GetField(after, f) {
      RedoneField(before, after, changes, 6, f);
      assert Place(f) < 6;
    }
    SameFields(RedoChanges(before, changes), after);
  }

  // ---------- operations on the tables ----------

  predicate Found(db: Db, orgId: Id, id: Id) {
    id in db.articles && db.articles[id].orgId == orgId
  }

  function Nullable(s: Option<string>): string {
    if s.None? then "" else s.value
  }

  function FieldsOf(a: Article, body: string): Fields {
    Fields(a.title, Nullable(a.shortTitle), a.richTitle, a.keyword, a.desc, body)
  }

  function OfflineReply(db: Db, orgId: Id, id: Id): Reply {
    if orgId == 0 || id == 0 then InvalidInput
    else if !Found(db, orgId, id) then NotFound
    else
      var state := db.articles[id].state;
      if state == OFFLINE || state == OFFLINE_SYNC then Done(state, state, true)
      else if state != ONLINE then WrongState
      else Done(state, OFFLINE, false)
  }

  function Offline(db: Db, orgId: Id, id: Id): Db {
    match OfflineReply(db, orgId, id)
    case Done(before, after, skipped) =>
      db.(articles := db.articles[id := db.articles[id].(state := after)],
          operations := db.operations + [OperationLog(orgId, id, OfflineOp, before, after, skipped)])
    case _ => db
  }

  function LogChanges(orgId: Id, id: Id, changes: seq<Change>): (logs: seq<ChangeLog>)
    ensures |logs| == |changes| && forall k | 0 <= k < |logs| :: logs[k] == ChangeLog(orgId, id, changes[k])
  {
    seq(|changes|, k requires 0 <= k < |changes| => ChangeLog(orgId, id, changes[k]))
  }

  predicate CanUpdate(db: Db, orgId: Id, id: Id) {
    orgId != 0 && id != 0 && Found(db, orgId, id) && id in db.bodies
  }

  function Update(db: Db, orgId: Id, id: Id, fields: Fields): Db {
    if !CanUpdate(db, orgId, id) then db
    else
      var a := db.articles[id];
      var changes := DiffEditableFields(FieldsOf(a, db.bodies[id]), fields);
      if changes == [] then db
      else
        db.(articles := db.articles[id := a.(title := fields.title, shortTitle := Some(fields.shortTitle),
                                             richTitle := fields.richTitle, keyword := fields.keyword, desc := fields.desc)],
            bodies := db.bodies[id := fields.body],
            changes := db.changes + LogChanges(orgId, id, changes),
            operations := db.operations + [OperationLog(orgId, id, RectifyOp, a.state, a.state, false)])
  }

  function RepublishReply(db: Db, orgId: Id, id: Id): Reply {
    if orgId == 0 || id == 0 then InvalidInput
    else if !Found(db, orgId, id) then NotFound
    else Done(db.articles[id].state, AUDIT_PENDING, db.articles[id].state == AUDIT_PENDING)
  }

  function Republish(db: Db, orgId: Id, id: Id): Db {
    match RepublishReply(db, orgId, id)
    case Done(before, after, skipped) =>
      if skipped then db
      else db.(articles := db.articles[id := db.articles[id].(state := after)],
               operations := db.operations + [OperationLog(orgId, id, RepublishOp, before, after, false)])
    case _ => db
  }

  /** Article id may have changed, nothing else but the logs. */
  ghost predicate OnlyArticle(db: Db, db': Db, id: Id) {
    && db'.articles.Keys == db.articles.Keys && (forall k | k in db.articles && k != id :: db'.articles[k] == db.articles[k])
    && db'.bodies.Keys == db.bodies.Keys && (forall k | k in db.bodies && k != id :: db'.bodies[k] == db.bodies[k])
  }

  /** Offlining: an online article (state 9) goes offline (8), one that is offline already (8, or 7 from the
      sync) is left alone, both with one log; any other state is refused without a log. */
  ghost predicate OfflineMeans(db: Db, db': Db, orgId: Id, id: Id, reply: Reply) {
    && (reply.InvalidInput? <==> orgId == 0 || id == 0)
    && (reply.NotFound? <==> orgId != 0 && id != 0 && !(id in db.articles && db.articles[id].orgId == orgId))
    && (reply.Done? ==> id in db.articles && db.articles[id].orgId == orgId && 7 <= db.articles[id].state <= 9)
    && (reply.WrongState? ==> id in db.articles && db.articles[id].orgId == orgId && !(7 <= db.articles[id].state <= 9))
    && (!reply.Done? ==> db' == db)
    && (reply.Done? ==> OnlyArticle(db, db', id) && OfflineDone(db, db', orgId, id, reply))
  }

  ghost predicate OfflineDone(db: Db, db': Db, orgId: Id, id: Id, reply: Reply)
    requires reply.Done? && id in db.articles && id in db'.articles
  {
    var before := db.articles[id].state;
    var after := if before == 7 then 7 else 8;
    && db'.articles[id] == db.articles[id].(state := after)
    && reply == Done(before, after, before != 9)
    && db'.bodies == db.bodies && db'.changes == db.changes
    && db'.operations == db.operations + [OperationLog(orgId, id, OfflineOp, before, after, before != 9)]
  }

  lemma OfflineIsMeant(db: Db, orgId: Id, id: Id)
    ensures OfflineMeans(db, Offline(db, orgId, id), orgId, id, OfflineReply(db, orgId, id))
  {
  }

  /** Republishing: the article waits for audit (state 1), with one log; one that waits already is left alone,
      without a log. */
  ghost predicate RepublishMeans(db: Db, db': Db, orgId: Id, id: Id, reply: Reply) {
    && (reply.InvalidInput? <==> orgId == 0 || id == 0)
    && (reply.NotFound? <==> orgId != 0 && id != 0 && !(id in db.articles && db.articles[id].orgId == orgId))
    && !reply.WrongState?
    && (!reply.Done? ==> db' == db)
    && (reply.Done? ==> OnlyArticle(db, db', id) && id in db.articles && RepublishDone(db, db', orgId, id, reply))
  }

  ghost predicate RepublishDone(db: Db, db': Db, orgId: Id, id: Id, reply: Reply)
    requires reply.Done? && id in db.articles && id in db'.articles
  {
    var before := db.articles[id].state;
    && db'.articles[id] == db.articles[id].(state := 1)
    && reply == Done(before, 1, before == 1)
    && db'.bodies == db.bodies && db'.changes == db.changes
    && db'.operations == db.operations + if before == 1 then [] else [OperationLog(orgId, id, RepublishOp, before, 1, false)]
  }

  lemma RepublishIsMeant(db: Db, orgId: Id, id: Id)
    ensures RepublishMeans(db, Republish(db, orgId, id), orgId, id, RepublishReply(db, orgId, id))
  {
  }

  /** Rectifying: the six fields become the given ones, every field that differs is logged once with both texts,
      and one operation log follows; when none differs nothing is written. */
  ghost predicate UpdateMeans(db: Db, db': Db, orgId: Id, id: Id, fields: Fields, ok: bool, made: seq<Change>) {
    && (ok <==> orgId != 0 && id != 0 && id in db.articles && db.articles[id].orgId == orgId && id in db.bodies)
    && (!ok ==> made == [])
    && (made == [] ==> db' == db)
    && (ok ==> ListsChanges(FieldsOf(db.articles[id], db.bodies[id]), fields, made, 6))
    && (made != [] ==> OnlyArticle(db, db', id) && Rewritten(db, db', orgId, id, fields, made))
  }

  ghost predicate Rewritten(db: Db, db': Db, orgId: Id, id: Id, fields: Fields, made: seq<Change>)
    requires OnlyArticle(db, db', id)
  {
    && id in db.articles && id in db.bodies
    && db'.articles[id] == Article(orgId, db.articles[id].state, fields.title, Some(fields.shortTitle),
                                   fields.richTitle, fields.keyword, fields.desc)
    && db'.bodies[id] == fields.body
    && |db'.changes| == |db.changes| + |made| && db.changes <= db'.changes
    && (forall k | 0 <= k < |made| :: db'.changes[|db.changes| + k] == ChangeLog(orgId, id, made[k]))
    && db'.operations == db.operations + [OperationLog(orgId, id, RectifyOp, db.articles[id].state, db.articles[id].state, false)]
  }

  lemma UpdateIsMeant(db: Db, orgId: Id, id: Id, fields: Fields)
    ensures
      var ok := CanUpdate(db, orgId, id);
      var made := if ok then DiffEditableFields(FieldsOf(db.articles[id], db.bodies[id]), fields) else [];
      UpdateMeans(db, Update(db, orgId, id, fields), orgId, id, fields, ok, made)
  {
    if CanUpdate(db, orgId, id) {
      DiffLists(FieldsOf(db.articles[id], db.bodies[id]), fields);
    }
  }

  class LifecycleService {
    var articles: map<Id, Article>
    var bodies: map<Id, string>
    var operations: seq<OperationLog>
    var changes: seq<ChangeLog>

    constructor (articles: map<Id, Article>, bodies: map<Id, string>)
      ensures Tables() == Db(articles, bodies, [], [])
    {
      this.articles, this.bodies, operations, changes := articles, bodies, [], [];
    }

    ghost function Tables(): Db
      reads this
    {
      Db(articles, bodies, operations, changes)
    }

    method OfflineArticle(orgId: Id, articleId: Id) returns (reply: Reply)
      modifies this
      ensures reply == OfflineReply(old(Tables()), orgId, articleId)
      ensures Tables() == Offline(old(Tables()), orgId, articleId)
      ensures OfflineMeans(old(Tables()), Tables(), orgId, articleId, reply)
    {
      OfflineIsMeant(Tables(), orgId, articleId);
      if orgId == 0 || articleId == 0 {
        return InvalidInput;
      }
      if articleId !in articles || articles[articleId].orgId != orgId {
        return NotFound;
      }
      var state := articles[articleId].state;
      if state == OFFLINE || state == OFFLINE_SYNC {
        operations := operations + [OperationLog(orgId, articleId, OfflineOp, state, state, true)];
        assert articles[articleId := articles[articleId].(state := state)] == articles;
        return Done(state, state, true);
      }
      if state != ONLINE {
        return WrongState;
      }
      articles := articles[articleId := articles[articleId].(state := OFFLINE)];
      operations := operations + [OperationLog(orgId, articleId, OfflineOp, state, OFFLINE, false)];
      return Done(state, OFFLINE, false);
    }

    method UpdateArticleFields(orgId: Id, articleId: Id, fields: Fields) returns (ok: bool, made: seq<Change>)
      modifies this
      ensures ok <==> CanUpdate(old(Tables()), orgId, articleId)
      ensures Tables() == Update(old(Tables()), orgId, articleId, fields)
      ensures made == if CanUpdate(old(Tables()), orgId, articleId)
                      then DiffEditableFields(FieldsOf(old(articles)[articleId], old(bodies)[articleId]), fields) else []
      ensures UpdateMeans(old(Tables()), Tables(), orgId, articleId, fields, ok, made)
    {
      UpdateIsMeant(Tables(), orgId, articleId, fields);
      ok, made := false, [];
      if orgId == 0 || articleId == 0 || articleId !in articles || articles[articleId].orgId != orgId || articleId !in bodies {
        return;
      }
      ok := true;
      var a := articles[articleId];
      made := DiffEditableFields(FieldsOf(a, bodies[articleId]), fields);
      if |made| == 0 {
        return;
      }
      articles := articles[articleId := a.(title := fields.title, shortTitle := Some(fields.shortTitle),
                                           richTitle := fields.richTitle, keyword := fields.keyword, desc := fields.desc)];
      bodies := bodies[articleId := fields.body];
      var logs := BuildFieldChangeLogs(orgId, articleId, made);
      changes := changes + logs;
      operations := operations + [OperationLog(orgId, articleId, RectifyOp, a.state, a.state, false)];
    }

    method RepublishArticle(orgId: Id, articleId: Id) returns (reply: Reply)
      modifies this
      ensures reply == RepublishReply(old(Tables()), orgId, articleId)
      ensures Tables() == Republish(old(Tables()), orgId, articleId)
      ensures RepublishMeans(old(Tables()), Tables(), orgId, articleId, reply)
    {
      RepublishIsMeant(Tables(), orgId, articleId);
      if orgId == 0 || articleId == 0 {
        return InvalidInput;
      }
      if articleId !in articles || articles[articleId].orgId != orgId {
        return NotFound;
      }
      var state := articles[articleId].state;
      if state == AUDIT_PENDING {
        return Done(state, state, true);
      }
      articles := articles[articleId := articles[articleId].(state := AUDIT_PENDING)];
      operations := operations + [OperationLog(orgId, articleId, RepublishOp, state, AUDIT_PENDING, false)];
      return Done(state, AUDIT_PENDING, false);
    }
  }

  method BuildFieldChangeLogs(orgId: Id, articleId: Id, changes: seq<Change>) returns (logs: seq<ChangeLog>)
    ensures logs == LogChanges(orgId, articleId, changes)
  {
    logs := [];
    for i := 0 to |changes|
      invariant |logs| == i && forall k | 0 <= k < i :: logs[k] == ChangeLog(orgId, articleId, changes[k])
    {
      logs := logs + [ChangeLog(orgId, articleId, changes[i])];
    }
  }

  // ---------- any sequence of operations ----------

  datatype Op = DoOffline(orgId: Id, id: Id) | DoUpdate(orgId: Id, id: Id, fields: Fields) | DoRepublish(orgId: Id, id: Id)

  function Step(db: Db, op: Op): Db {
    match op
    case DoOffline(orgId, id) => Offline(db, orgId, id)
    case DoUpdate(orgId, id, fields) => Update(db, orgId, id, fields)
    case DoRepublish(orgId, id) => Republish(db, orgId, id)
  }

  function Run(db: Db, ops: seq<Op>): Db {
    if ops == [] then db else Step(Run(db, ops[..|ops| - 1]), ops[|ops| - 1])
  }

  /** Fold the logged state changes of an article over a start state; None when a log does not start where
      the previous one ended. */
  function Replay(logs: seq<OperationLog>, id: Id, start: int): Option<int> {
    if logs == [] then Some(start)
    else
      var so, last := Replay(logs[..|logs| - 1], id, start), logs[|logs| - 1];
      if last.articleId != id then so
      else if so == Some(last.before) then Some(last.after)
      else None
  }

  type Views = map<Id, Fields>

  function ViewsOf(db: Db): Views {
    map id | id in db.articles && id in db.bodies :: FieldsOf(db.articles[id], db.bodies[id])
  }

  function UndoOne(v: Views, log: ChangeLog): Views {
    if log.articleId in v then v[log.articleId := SetField(v[log.articleId], log.change.field, log.change.before)] else v
  }

  /** Undo logged field changes from last to first. */
  function Undo(v: Views, logs: seq<ChangeLog>): Views
    decreases |logs|
  {
    if logs == [] then v else Undo(UndoOne(v, logs[|logs| - 1]), logs[..|logs| - 1])
  }

  lemma {:induction false} UndoConcat(v: Views, a: seq<ChangeLog>, b: seq<ChangeLog>)
    ensures Undo(v, a + b) == Undo(Undo(v, b), a)
  {
    if b == [] {
      assert a + b == a;
    } else {
      var all := a + b;
      assert all[|all| - 1] == b[|b| - 1] && all[..|all| - 1] == a + b[..|b| - 1];
      UndoConcat(UndoOne(v, b[|b| - 1]), a, b[..|b| - 1]);
    }
  }

  /** The logs of one article undo just that article. */
  lemma {:induction false} UndoLogs(v: Views, orgId: Id, id: Id, changes: seq<Change>)
    requires id in v
    ensures Undo(v, LogChanges(orgId, id, changes)) == v[id := UndoChanges(v[id], changes)]
  {
    var logs := LogChanges(orgId, id, changes);
    if changes == [] {
      assert v[id := v[id]] == v;
    } else {
      var init, last := changes[..|changes| - 1], changes[|changes| - 1];
      var v' := UndoOne(v, logs[|logs| - 1]);
      UndoLogs(v', orgId, id, init);
      assert logs[..|logs| - 1] == LogChanges(orgId, id, init);
      assert v'[id := UndoChanges(v'[id], init)] == v[id := UndoChanges(v[id], changes)];
    }
  }

  function RedoOne(v: Views, log: ChangeLog): Views {
    if log.articleId in v then v[log.articleId := SetField(v[log.articleId], log.change.field, log.change.after)] else v
  }

  /** Make logged field changes from first to last. */
  function Redo(v: Views, logs: seq<ChangeLog>): Views {
    if logs == [] then v else RedoOne(Redo(v, logs[..|logs| - 1]), logs[|logs| - 1])
  }

  lemma {:induction false} RedoConcat(v: Views, a: seq<ChangeLog>, b: seq<ChangeLog>)
    ensures Redo(v, a + b) == Redo(Redo(v, a), b)
  {
    if b == [] {
      assert a + b == a;
    } else {
      var all := a + b;
      assert all[|all| - 1] == b[|b| - 1] && all[..|all| - 1] == a + b[..|b| - 1];
      RedoConcat(v, a, b[..|b| - 1]);
    }
  }

  lemma {:induction false} RedoLogs(v: Views, orgId: Id, id: Id, changes: seq<Change>)
    requires id in v
    ensures Redo(v, LogChanges(orgId, id, changes)) == v[id := RedoChanges(v[id], changes)]
  {
    var logs := LogChanges(orgId, id, changes);
    if changes == [] {
      assert v[id := v[id]] == v;
    } else {
      var init := changes[..|changes| - 1];
      RedoLogs(v, orgId, id, init);
      assert logs[..|logs| - 1] == LogChanges(orgId, id, init);
    }
  }

  /** What one operation adds to the logs, and what those logs say. */
  lemma StepLogs(db: Db, op: Op)
    ensures
      var db' := Step(db, op);
      && db.operations <= db'.operations && |db'.operations| <= |db.operations| + 1
      && db.changes <= db'.changes
      && db'.articles.Keys == db.articles.Keys && db'.bodies.Keys == db.bodies.Keys
  {
  }

  lemma StepReplays(db: Db, op: Op, id: Id)
    requires id in db.articles
    ensures
      var db' := Step(db, op);
      && id in db'.articles
      && (|db'.operations| == |db.operations| || db'.operations[|db.operations|].articleId != id ==>
            db'.articles[id].state == db.articles[id].state)
      && (|db'.operations| > |db.operations| && db'.operations[|db.operations|].articleId == id ==>
            db'.operations[|db.operations|].before == db.articles[id].state
            && db'.operations[|db.operations|].after == db'.articles[id].state)
      && (db'.articles[id].state == ONLINE ==> db.articles[id].state == ONLINE)
  {
    StepLogs(db, op);
  }

  /** What an update with changes does to the editable fields and the change log. */
  lemma UpdateEffect(db: Db, orgId: Id, id: Id, fields: Fields)
    requires CanUpdate(db, orgId, id)
    requires DiffEditableFields(FieldsOf(db.articles[id], db.bodies[id]), fields) != []
    ensures ViewsOf(Update(db, orgId, id, fields)) == ViewsOf(db)[id := fields]
    ensures Update(db, orgId, id, fields).changes
         == db.changes + LogChanges(orgId, id, DiffEditableFields(FieldsOf(db.articles[id], db.bodies[id]), fields))
  {
  }

  lemma UpdateUndoes(db: Db, orgId: Id, id: Id, fields: Fields)
    requires CanUpdate(db, orgId, id)
    ensures
      var db' := Update(db, orgId, id, fields);
      db.changes <= db'.changes && Undo(ViewsOf(db'), db'.changes[|db.changes|..]) == ViewsOf(db)
  {
    var v, before := ViewsOf(db), FieldsOf(db.articles[id], db.bodies[id]);
    var changes := DiffEditableFields(before, fields);
    DiffUndoes(before, fields);
    if changes == [] {
      assert db.changes[|db.changes|..] == [];
    } else {
      UpdateEffect(db, orgId, id, fields);
      var edited: Views := v[id := fields];
      UndoLogs(edited, orgId, id, changes);
      assert edited[id := before] == v;
      DropPrefix(db.changes, LogChanges(orgId, id, changes));
    }
  }

  lemma DropPrefix<T>(a: seq<T>, b: seq<T>)
    ensures (a + b)[|a|..] == b
  {
  }

  lemma StepUndoes(db: Db, op: Op)
    ensures
      var db' := Step(db, op);
      db.changes <= db'.changes && Undo(ViewsOf(db'), db'.changes[|db.changes|..]) == ViewsOf(db)
  {
    var db' := Step(db, op);
    if op.DoUpdate? && CanUpdate(db, op.orgId, op.id) {
      UpdateUndoes(db, op.orgId, op.id, op.fields);
    } else {
      assert db'.changes[|db.changes|..] == [];
      assert ViewsOf(db') == ViewsOf(db);
    }
  }

  lemma UpdateRedoes(db: Db, orgId: Id, id: Id, fields: Fields)
    requires CanUpdate(db, orgId, id)
    ensures
      var db' := Update(db, orgId, id, fields);
      db.changes <= db'.changes && Redo(ViewsOf(db), db'.changes[|db.changes|..]) == ViewsOf(db')
  {
    var v, before := ViewsOf(db), FieldsOf(db.articles[id], db.bodies[id]);
    var changes := DiffEditableFields(before, fields);
    DiffUndoes(before, fields);
    DiffRedoes(before, fields);
    if changes == [] {
      assert db.changes[|db.changes|..] == [];
    } else {
      UpdateEffect(db, orgId, id, fields);
      RedoLogs(v, orgId, id, changes);
      DropPrefix(db.changes, LogChanges(orgId, id, changes));
    }
  }

  lemma StepRedoes(db: Db, op: Op)
    ensures
      var db' := Step(db, op);
      db.changes <= db'.changes && Redo(ViewsOf(db), db'.changes[|db.changes|..]) == ViewsOf(db')
  {
    var db' := Step(db, op);
    if op.DoUpdate? && CanUpdate(db, op.orgId, op.id) {
      UpdateRedoes(db, op.orgId, op.id, op.fields);
    } else {
      assert db'.changes[|db.changes|..] == [];
      assert ViewsOf(db') == ViewsOf(db);
    }
  }

  /** Over any sequence of operations: making the logged field changes in order on the original articles gives
      the articles as they are now, as an editor sees them. */
  lemma {:induction false} LogsRedo(db: Db, ops: seq<Op>)
    ensures
      var db' := Run(db, ops);
      db.changes <= db'.changes && Redo(ViewsOf(db), db'.changes[|db.changes|..]) == ViewsOf(db')
  {
    if ops == [] {
      assert db.changes[|db.changes|..] == [];
    } else {
      var init, op := ops[..|ops| - 1], ops[|ops| - 1];
      LogsRedo(db, init);
      var mid, end := Run(db, init), Run(db, ops);
      StepRedoes(mid, op);
      SuffixSplits(db.changes, mid.changes, end.changes);
      RedoConcat(ViewsOf(db), mid.changes[|db.changes|..], end.changes[|mid.changes|..]);
    }
  }

  /** Over any sequence of operations: no article becomes online, and folding an article's logged
      before/after states from its start state gives its current state. */
  lemma {:induction false} LogsReplay(db: Db, ops: seq<Op>, id: Id)
    requires id in db.articles
    ensures
      var db' := Run(db, ops);
      && id in db'.articles
      && db.operations <= db'.operations
      && Replay(db'.operations[|db.operations|..], id, db.articles[id].state) == Some(db'.articles[id].state)
      && (db'.articles[id].state == ONLINE ==> db.articles[id].state == ONLINE)
  {
    if ops == [] {
      assert db.operations[|db.operations|..] == [];
    } else {
      var init, op := ops[..|ops| - 1], ops[|ops| - 1];
      LogsReplay(db, init, id);
      var mid, end := Run(db, init), Run(db, ops);
      StepLogs(mid, op);
      StepReplays(mid, op, id);
      var a, b := mid.operations[|db.operations|..], end.operations[|db.operations|..];
      if |end.operations| == |mid.operations| {
        assert end.operations == mid.operations;
      } else {
        assert b[|b| - 1] == end.operations[|mid.operations|];
        assert b[..|b| - 1] == a;
      }
    }
  }

  /** Undoing the field-change logs in reverse order restores the original six fields of every article, as an
      editor sees them: a NULL short title reads as "". */
  lemma {:induction false} LogsUndo(db: Db, ops: seq<Op>)
    ensures
      var db' := Run(db, ops);
      db.changes <= db'.changes && Undo(ViewsOf(db'), db'.changes[|db.changes|..]) == ViewsOf(db)
  {
    if ops == [] {
      assert db.changes[|db.changes|..] == [];
    } else {
      var init, op := ops[..|ops| - 1], ops[|ops| - 1];
      LogsUndo(db, init);
      var mid, end := Run(db, init), Run(db, ops);
      StepUndoes(mid, op);
      SuffixSplits(db.changes, mid.changes, end.changes);
      UndoConcat(ViewsOf(end), mid.changes[|db.changes|..], end.changes[|mid.changes|..]);
    }
  }

  lemma SuffixSplits<T>(a: seq<T>, b: seq<T>, c: seq<T>)
    requires a <= b <= c
    ensures a <= c && c[|a|..] == b[|a|..] + c[|b|..]
  {
  }

  /** The logs since entry n hold a rectification of article id. An update that changes nothing writes none. */
  ghost predicate Rectified(db: Db, n: nat, id: Id) {
    exists k | n <= k < |db.operations| :: db.operations[k].articleId == id && db.operations[k].operation.RectifyOp?
  }

  /** One operation keeps a NULL short title unless it rectifies the article, and never brings one back. */
  lemma StepNull(db: Db, op: Op, id: Id)
    requires id in db.articles
    ensures
      var db' := Step(db, op);
      id in db'.articles && (db'.articles[id].shortTitle.None? <==> db.articles[id].shortTitle.None? && !Rectified(db', |db.operations|, id))
  {
    StepLogs(db, op);
    var db' := Step(db, op);
    if |db'.operations| > |db.operations| {
      assert db'.operations[|db.operations|].articleId == op.id;
    }
  }

  lemma RectifiedSplits(db: Db, db': Db, n: nat, id: Id)
    requires n <= |db.operations| && db.operations <= db'.operations
    ensures Rectified(db', n, id) <==> Rectified(db, n, id) || Rectified(db', |db.operations|, id)
  {
    if Rectified(db, n, id) {
      var k :| n <= k < |db.operations| && db.operations[k].articleId == id && db.operations[k].operation.RectifyOp?;
      assert db'.operations[k] == db.operations[k];
    }
    if Rectified(db', n, id) {
      var k :| n <= k < |db'.operations| && db'.operations[k].articleId == id && db'.operations[k].operation.RectifyOp?;
      assert k < |db.operations| ==> db.operations[k] == db'.operations[k];
    }
  }

  lemma {:induction false} NullKept(db: Db, ops: seq<Op>, id: Id)
    requires id in db.articles
    ensures
      var db' := Run(db, ops);
      && id in db'.articles && db.operations <= db'.operations
      && (db'.articles[id].shortTitle.None? <==> db.articles[id].shortTitle.None? && !Rectified(db', |db.operations|, id))
  {
    if ops != [] {
      var init, op := ops[..|ops| - 1], ops[|ops| - 1];
      NullKept(db, init, id);
      var mid := Run(db, init);
      StepLogs(mid, op);
      StepNull(mid, op, id);
      RectifiedSplits(mid, Step(mid, op), |db.operations|, id);
    }
  }

  /** The short title column that undoing the logs gives back: the logs know texts, not NULL. */
  function UndoneColumn(now: Option<string>, undone: string): Option<string> {
    if now.None? then None else Some(undone)
  }

  /** The stored short title comes back exactly when it was not NULL or no rectification touched the article:
      the first one writes "" over NULL without logging it. */
  lemma ShortTitleComesBack(db: Db, ops: seq<Op>, id: Id)
    requires id in db.articles && id in db.bodies
    ensures
      var db' := Run(db, ops);
      && db.changes <= db'.changes && id in db'.articles
      && var undone := Undo(ViewsOf(db'), db'.changes[|db.changes|..]);
         && id in undone
         && (UndoneColumn(db'.articles[id].shortTitle, undone[id].shortTitle) == db.articles[id].shortTitle
             <==> db.articles[id].shortTitle.Some? || !Rectified(db', |db.operations|, id))
  {
    LogsUndo(db, ops);
    NullKept(db, ops, id);
    assert id in ViewsOf(db);
  }
}
