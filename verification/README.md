# Article Sentinel: a verified model of the inspection core

Article Sentinel inspects published articles for sensitive keywords. A task is created together with an
outbox message; relays claim the message under a lease and hand it to a queue; a worker runs the task, pages
through the candidate articles, scans them and stores what it finds; editors then offline, rectify or
republish articles in batches. This project models that core in Dafny and proves what it promises, over every
input, every interleaving and every run.

The parts, bottom up:

- `Outbox.dfy`: the outbox row, the relay settings, and each SQL update as a function from the row in the
  table to the row it leaves behind.
- `Protocol.dfy`: relays, cleanup, task service, queue and workers as one step system. A step is one database
  statement, one transaction, one clock reading or one queue call; any number of callers interleave, each may
  die at any point, and clock readings are arbitrary. `Safe` is the inductive invariant; the theorems over all
  runs follow from `ReachableSafe`.
- `Lease.dfy`: the runs in which time does not go back and every relay issues its completion write no later
  than its own `claim_until`. Reading a row and claiming it stay two steps.
- `Attempts.dfy`: what `attempt_count` counts and how attempts back off in those runs. The exact counts ask that
  the row is still as it was read when a claim wins (`FreshClaims`, read and claim as one step); the backoff
  from the first attempt does not.
- `LateWrites.dfy`: when exactly a completion write finds the row as its own claim left it, and when it meets a
  terminal row, in every run, on time or not.
- `Traces.dfy`, `Witnesses.dfy`: runs built step by step that break a theorem once one of its hypotheses is
  dropped.
- `Relay.dfy`: the relay as the program runs it, a class that updates the table statement by statement. Each
  call, and each whole batch, is proved to be a run of the step system. `Query.dfy` holds `ORDER BY ... LIMIT`.
- `Text.dfy`, `Scanner.dfy`: the keyword search, with the proof that greedy search finds a largest set of
  disjoint occurrences.
- `Results.dfy`, `Executor.dfy`: storing hits, cursor paging, counters and final task status.
- `Lifecycle.dfy`, `UniqueIds.dfy`, `Actions.dfy`: article life cycle with replayable audit logs, and the batch
  actions on inspection results.
- `ExchangeCodes.dfy`, `SqlSplit.dfy`: the one-time login codes and the migration script splitter.

Where the code does something a reader might not expect, the model follows the code:

- Completion writes match on the id alone, so a relay that outlives its lease can overwrite a newer state. A
  retry write does not clear `retained_until` or `dispatched_at`, so the reopened row keeps them
  (`Witnesses.LateWriteReopensRow`). This happens exactly when another call ended the row after the late call's
  claim and nothing has touched it since (`LateWrites.MeetsTerminalRow`). Over all runs `retained_until` is set
  exactly on the terminal rows and on the rows so reopened and not ended since (`LateWrites.RetainedExactly`).
- Comparing a row with what one's own claim wrote does not tell whether others touched it in between: two claims
  with the same clock reading can leave identical rows (`Witnesses.SameReadingHidesOthers`). It does tell when
  no other claim carries the same reading (`LateWrites.FindsOwnClaim`).
- `attempt_count` counts completion writes, so a failed hand-off whose relay dies before the write is not in it.
  It is the number of failed hand-offs if and only if none was lost that way or is still in flight
  (`Attempts.AttemptsCountFailures`); `Witnesses.CrashHidesFailure` dead-letters after two failures with a
  maximum of one.
- A relay that works on an old copy of a row can set `attempt_count` back. Backoff between two later attempts can
  then be short (`Witnesses.CopyAheadSkipsBackoff`). The wait a retry write sets covers the growth of
  `attempt_count` if and only if the relay's own copy showed no more attempts than the table when it claimed
  (`Attempts.RetryWaitExactly`); as long as claims keep to that, so do whole runs (`Attempts.AttemptsBackOff`).
  From the first attempt on the backoff is never short (`Attempts.AttemptsBackOffFromFirst`).
- The executor compares the page length with its own batch size, but the repository cuts pages at 200. With a
  batch size above 200 the loop ends after 200 articles. The paged scan is complete exactly when the batch size
  is at most 200 or at most 200 articles match (`Executor.FullExactly`, `Executor.OversizedPageMissesArticles`).
- An exact hit reports offset 0 of the trimmed field. The span quotes the matched text exactly when the field
  does not start with a space (`Scanner.ExactHitQuotes`, `Scanner.ExactHitMisquotes`).
- A comment above `persistArticleResult` speaks of re-running a task; the compare-and-set in `startTask` never
  lets a task run twice (`Protocol.ScanRunsAtMostOnce`).
- An exchange code whose computed expiry is the zero time never expires (`ExchangeCodes.ZeroExpiryNeverExpires`);
  every redemption of a code is in time if and only if its computed expiry is another (`ExchangeCodes.InTimeExactly`).
- A rectification writes "" over a NULL short title without logging it, so undoing the logs restores the fields
  as an editor sees them, and the stored column exactly when it was not NULL or no rectification touched the
  article (`Lifecycle.ShortTitleComesBack`).

## Model

| member | source | states |
|---|---|---|
| Outbox.WithSettings | internal/modules/articleinspect/outbox/relay.go:36-53 | a merge never turns usable settings into unusable ones, and a fully valid request is taken as it is |
| Outbox.NewTaskOutboxSettings | internal/modules/articleinspect/outbox/settings.go:18-42 | whatever the configuration says the settings are usable, and each value is honoured exactly when it is set |
| Outbox.BackoffSumClosedForm | internal/modules/articleinspect/outbox/relay.go:339-348 | n failures impose 15n s up to 3, 45+60(n-3) s up to 10, 465+300(n-10) s beyond |
| Protocol.ReachableSafe | internal/modules/articleinspect/outbox/relay.go:74-133 | the inductive invariant of the whole system holds in every state of every interleaving, crashes and late writes included |
| Protocol.NoTaskForgotten | internal/modules/articleinspect/tasks/service.go:108-137 | for every undeleted task, at every point of every run, its message is pending or claimed, or the queue accepted that task's id, or the message was dead-lettered |
| Protocol.DispatchedWasAccepted | internal/modules/articleinspect/outbox/relay.go:117-132 | status dispatched implies an earlier hand-off step of a well-formed message before which the queue did not hold this payload and after which it did; for service messages the payload names the row's own task |
| Protocol.AcceptanceStep | internal/queue/asynq/articleinspect_dispatcher.go:24-31 | whatever the queue holds entered it in one hand-off step of a well-formed message, before which it was not there |
| Protocol.AttemptCountBounded | internal/modules/articleinspect/outbox/relay.go:320-326 | in all interleavings open rows have fewer than MaxAttempts attempts, no row has more, and a well-formed message is dead-lettered only at MaxAttempts |
| Protocol.MalformedDeadLetteredAtOnce | internal/modules/articleinspect/outbox/relay.go:100-114 | in all interleavings an open or dispatched row with attempts behind it is well-formed; a message that does not decode or has another type is dead-lettered by its first completion write, with its own error code |
| Protocol.ClaimsAreSpaced | internal/modules/articleinspect/outbox/relay.go:211-250 | in all interleavings and for arbitrary clocks, two winning claims of a row with no completion write between them carry readings more than the lease apart |
| Protocol.NoClaimOnTerminal | internal/modules/articleinspect/outbox/relay.go:220-230 | in all interleavings no claim wins on a terminal row |
| Protocol.ScanRunsAtMostOnce | internal/modules/articleinspect/worker/executor.go:114-150 | however often a task is dispatched or redelivered, at most one start wins, one worker enters the scan body, one finish write happens |
| Protocol.StatusMovesForward | internal/modules/articleinspect/worker/executor.go:114-150 | a task's status only moves pending, running, one final status, one place at a time, and a final status stays |
| Protocol.SoloWorker | internal/modules/articleinspect/worker/executor.go:114-150 | an undisturbed worker on a queued pending task wins the start, enters the scan body and writes the final status |
| Protocol.TaskAndMessageTogether | internal/modules/articleinspect/tasks/service.go:108-137 | creating a task writes a pending task and, in the same step, a well-formed message of its own that is due at any reading |
| Protocol.DeletionCascades | internal/modules/articleinspect/tasks/service.go:271-304 | the deleting transaction takes the task and exactly the messages with its ids; when the task is gone it changes nothing |
| Protocol.DeletionWasChecked | internal/modules/articleinspect/tasks/service.go:242-269 | every deletion was preceded by its own check, which found the task pending or failed |
| Protocol.DeletedTakesMessage | internal/modules/articleinspect/tasks/service.go:271-304 | in all interleavings the message of a deleted task is gone for good: no late write brings it back |
| Protocol.SoloClaim | internal/modules/articleinspect/outbox/relay.go:211-250 | an undisturbed call on a dispatchable row ends holding it, the table row and the in-memory copy carrying the same lease |
| Protocol.SoloComplete | internal/modules/articleinspect/outbox/relay.go:100-132 | from there the call reaches its completion write and leaves the queue with the payload exactly when the hand-off was accepted |
| Protocol.SoloIdle | internal/modules/articleinspect/outbox/relay.go:87-90 | a call on a row that is not dispatchable leaves the whole system as it was |
| Lease.OneLiveHolder | internal/modules/articleinspect/outbox/relay.go:211-250 | in lease-respecting runs at most one live relay holds a row, and the row carries exactly its lease |
| Lease.TerminalRowsFrozen | internal/modules/articleinspect/outbox/relay.go:252-318 | in lease-respecting runs a dispatched or dead-lettered row never changes again until it is deleted |
| Lease.RetainedIffTerminal | internal/modules/articleinspect/outbox/relay.go:252-318 | in lease-respecting runs retained_until is set exactly on terminal rows |
| Lease.CleanupRemovesOnlyExpired | internal/modules/articleinspect/outbox/cleanup.go:18-43 | with relay steps between select and delete, cleanup removes at most limit rows, each terminal with its completion reading plus retention in the past |
| Attempts.FailuresAccounted | internal/modules/articleinspect/outbox/relay.go:117-132 | in every run, every failed hand-off of a message was written down, was lost with its relay, or is still in flight |
| Attempts.AttemptsCountFailures | internal/modules/articleinspect/outbox/relay.go:252-318 | attempt_count plus the failed hand-offs lost or in flight is the number of failed hand-offs, plus one once dispatched; so it equals that number if and only if none was lost or is in flight |
| Attempts.DeadLetterAfterMaxFailures | internal/modules/articleinspect/outbox/relay.go:117-129 | a well-formed message is dead-lettered after MaxAttempts failed hand-offs plus those lost or in flight, exactly MaxAttempts if and only if there are none |
| Attempts.RetryWaitExactly | internal/modules/articleinspect/outbox/relay.go:273-294 | in all interleavings, the wait a retry write sets from the reading of its claim is at least the backoff of the failures attempt_count grew by, if and only if the call's own copy showed no more attempts than the table when it claimed |
| Attempts.AttemptsBackOff | internal/modules/articleinspect/outbox/relay.go:273-294 | every later attempt comes after the backoff of the failures its count has grown by, across crash, reclaim and stale reads, when each claim in between keeps that condition or no call in flight at the start is ahead of the table |
| Attempts.AttemptsBackOffFromFirst | internal/modules/articleinspect/outbox/relay.go:339-348 | in every lease-respecting run, read and claim apart, attempt n+1 is at least 15n, 45+60(n-3) or 465+300(n-10) seconds after the first |
| Attempts.AttemptsBackOffFresh | internal/modules/articleinspect/outbox/relay.go:273-294 | with read and claim as one step, the same between any two attempts |
| LateWrites.FirstTouch | internal/modules/articleinspect/outbox/relay.go:211-318 | the first claim or completion write after a claim changes the row, and a claim then carries a reading more than the lease later |
| LateWrites.OwnClaimStays | internal/modules/articleinspect/outbox/relay.go:211-318 | in every run a row stays as a call's claim left it if and only if no other claim wins and no completion write hits it |
| LateWrites.FindsOwnClaim | internal/modules/articleinspect/outbox/relay.go:252-318 | a completion write finds the row as its own claim left it if and only if nothing else touched it since, when no other claim carries the same reading |
| LateWrites.LooksUntouched | internal/modules/articleinspect/outbox/relay.go:211-318 | a row that looks as a claim left it, though it was touched since, was last touched by a claim with the very same reading |
| LateWrites.MeetsTerminalRow | internal/modules/articleinspect/outbox/relay.go:252-318 | a completion write meets a terminal row if and only if, after its call's claim, another call's completion write ended the row and nothing has touched it since |
| LateWrites.TerminalChangedByCompletion | internal/modules/articleinspect/outbox/relay.go:252-318 | a terminal row changes only by the completion write of a call that had claimed it before another call ended it |
| LateWrites.RetainedExactly | internal/modules/articleinspect/outbox/relay.go:252-318 | in every run, on time or not, retained_until is set exactly on the terminal rows and on the open rows that a completion write reopened and none has ended since |
| Witnesses.LateWriteReopensRow | internal/modules/articleinspect/outbox/relay.go:273-294 | without the lease hypothesis: a run in which a late retry write reopens a dispatched row and leaves retained_until set |
| Witnesses.SameReadingHidesOthers | internal/modules/articleinspect/outbox/relay.go:232-237 | a run with a clock that never goes back and read and claim as one step in which a call finds its row as it left it though two others touched it |
| Witnesses.CrashHidesFailure | internal/modules/articleinspect/outbox/relay.go:117-129 | a lease-respecting run that dead-letters with attempt_count 1 and a maximum of 1 after two failed hand-offs |
| Witnesses.CopyAheadSkipsBackoff | internal/modules/articleinspect/outbox/relay.go:273-294 | a lease-respecting run in which a call ahead of the table shortens the backoff between two later attempts |
| Query.SelectFirst | internal/modules/articleinspect/outbox/relay.go:157-160 | selects the first limit candidates by key, then id: in order, none skipped |
| Query.FirstIsUnique | internal/modules/articleinspect/outbox/relay.go:157-160 | candidates, key and limit determine that answer |
| Relay.DispatchIsARun | internal/modules/articleinspect/outbox/relay.go:74-133 | an undisturbed DispatchMessage call is a run of the step system with the same effect on the table |
| Relay.PassIsARun | internal/modules/articleinspect/outbox/relay.go:135-192 | a whole DispatchPending pass is a run of the step system ending in the table the pass leaves |
| Relay.OutboxRelay.ClaimMessage | internal/modules/articleinspect/outbox/relay.go:211-250 | the claim wins exactly when the copy is dispatchable and the row in the table has the copy's status and is dispatchable; the row is then out of reach of others until the lease has passed; no other row changes |
| Relay.OutboxRelay.MarkDispatched | internal/modules/articleinspect/outbox/relay.go:252-271 | the message is kept and counted one attempt more, no reading makes it dispatchable again, and cleanup may take it exactly after its retention; other rows unchanged |
| Relay.OutboxRelay.ScheduleRetry | internal/modules/articleinspect/outbox/relay.go:273-294 | the row is dispatchable again exactly from the attempt's backoff on, never expires for cleanup, and keeps retained_until and dispatched_at; other rows unchanged |
| Relay.OutboxRelay.MoveToDeadLetter | internal/modules/articleinspect/outbox/relay.go:296-318 | no reading makes the row dispatchable again, it carries the error code, and cleanup may take it exactly after its retention; other rows unchanged |
| Relay.OutboxRelay.DispatchMessage | internal/modules/articleinspect/outbox/relay.go:74-133 | error paths change nothing and say which it was; otherwise one attempt on that row alone: dead-lettered exactly when the payload does not decode, the type is another, or the queue refused the last attempt; dispatched exactly when a well-formed message was accepted; else pending until its backoff is over; the error code and the report in each case, and the queue gains the payload exactly when it accepted it |
| Relay.OutboxRelay.DispatchCounted | internal/modules/articleinspect/outbox/relay.go:165-190 | a dispatchable row is counted as claimed and under exactly one ending, read back from the table |
| Relay.OutboxRelay.DispatchItems | internal/modules/articleinspect/outbox/relay.go:164-191 | every listed row gets one attempt, no other row changes, and the report tallies the endings |
| Relay.OutboxRelay.DispatchPending | internal/modules/articleinspect/outbox/relay.go:135-192 | the batch lists due rows in strictly ascending (attempt_count, id) order, none left out that comes before a listed one, as many as there are up to the limit; each listed row ends as one attempt on it does; Scanned = Claimed = Dispatched+Retried+DeadLettered, Failed = Retried+DeadLettered, each counter the number of rows that ended so |
| Relay.OutboxRelay.CleanupExpired | internal/modules/articleinspect/outbox/cleanup.go:10-44 | deletes the terminal rows past their retention that come first by (retained_until, id), as many as there are up to the limit, and nothing else |
| Relay.PassLowersPotential | internal/modules/articleinspect/outbox/relay.go:135-192 | a pass over s rows lowers the attempts left in the table by at least s |
| Relay.EmptyPassMeansWaiting | internal/modules/articleinspect/outbox/codec.go:20-29 | a pass is empty exactly when every open row is leased or backing off |
| Relay.PassesTerminate | internal/modules/articleinspect/outbox/relay.go:135-192 | after N*MaxAttempts passes, none run while every open row waits, all N rows are terminal, whatever the queue answers |
| Relay.NonEmptyPassesBounded | internal/modules/articleinspect/outbox/relay.go:135-192 | however the passes are timed, at most N*MaxAttempts of them find anything to do |
| Scanner.GreedyIsDisjoint | internal/modules/articleinspect/scan/scanner.go:106-116 | greedy search reports occurrences, in order and pairwise disjoint |
| Scanner.GreedyCovers | internal/modules/articleinspect/scan/scanner.go:106-116 | every occurrence starts inside a reported one |
| Scanner.GreedyIsMaximum | internal/modules/articleinspect/scan/scanner.go:106-116 | no set of pairwise disjoint occurrences is larger than the reported one |
| Scanner.GreedyHitsFindAll | internal/modules/articleinspect/scan/scanner.go:98-118 | the hits built at the greedy starts are case-insensitive matches that quote the original text, disjoint, and cover every occurrence |
| Scanner.Search | internal/modules/articleinspect/scan/scanner.go:105-117 | the search loop terminates with one hit per greedy start |
| Scanner.ContainsHits | internal/modules/articleinspect/scan/scanner.go:98-118 | a blank keyword finds nothing; otherwise the hits are true, ordered, disjoint, miss no occurrence and are as many as possible |
| Scanner.ExactHitQuotes | internal/modules/articleinspect/scan/scanner.go:120-127 | the same of the hits themselves: matched text, equality under case folding, and the quoting equivalence |
| Scanner.ExactHits | internal/modules/articleinspect/scan/scanner.go:120-127 | one hit if and only if the trimmed keyword and the trimmed field are non-blank and equal under case folding, none otherwise; it stands for the trimmed field from offset 0, and its span quotes it exactly when the field has no leading space |
| Scanner.ExactHitMisquotes | internal/modules/articleinspect/scan/scanner.go:120-127 | for the program's scanner and any keyword with a space put in front of it: one hit, whose span does not quote the matched text |
| Scanner.RegexHits | internal/modules/articleinspect/scan/scanner.go:129-147 | a blank pattern, one over the limit or one with "(?" finds nothing; otherwise every span of the library that lies in the field has its hit, in order, quoting it, and there are no others |
| Scanner.SpanHitsFollow | internal/modules/articleinspect/scan/scanner.go:138-146 | for any list of spans: one hit for each span in the field, in order |
| Scanner.BuildSnippet | internal/modules/articleinspect/scan/scanner.go:184-209 | the snippet contains the matched text at a known offset, with exactly the window or all there is on either side, the text around it unchanged and an ellipsis where text was left out |
| Scanner.KeywordHitsAreShown | internal/modules/articleinspect/scan/scanner.go:98-118 | with the program's scanner, every hit of a keyword quotes its span and carries a snippet that shows it |
| Scanner.HitIsShown | internal/modules/articleinspect/scan/scanner.go:168-182 | with the program's scanner, a hit built for a span of the field carries a snippet that shows that span |
| Scanner.ScanScope | internal/modules/articleinspect/scan/scanner.go:84-96 | every hit carries the rule's columns, its field and its span's snippet; blank fields, blank keywords and unknown match types have none; a keyword is found wherever it occurs and as often as disjoint hits allow; an exact rule hits exactly when the trimmed field is the keyword up to case; a safe pattern has a hit for each span |
| Scanner.ScanRule | internal/modules/articleinspect/scan/scanner.go:73-79 | the hits of a rule are those of its scopes, in order |
| Scanner.ScanArticle | internal/modules/articleinspect/scan/scanner.go:65-82 | the hits are one piece after another, without gap, for each rule in snapshot order and each of its scopes in order, and each piece is what ScanScope promises of that rule in that field |
| Scanner.ArticleInPieces | internal/modules/articleinspect/scan/scanner.go:65-82 | the same of the concatenation over rules and scopes |
| Scanner.FirstHitIsFromFirstRule | internal/modules/articleinspect/scan/scanner.go:71-81 | an article has hits exactly when some rule hits, and its first hit carries the columns of the first rule that does |
| Results.UniqueFieldCount | internal/modules/articleinspect/worker/executor.go:203-209 | the number of distinct fields among the hits |
| Results.UniqueKeywordCount | internal/modules/articleinspect/worker/executor.go:211-217 | the number of distinct keywords among the hits |
| Results.StoreKeepsConsistent | internal/modules/articleinspect/worker/executor.go:169-200 | replacing a key's result keeps one result per key, each describing exactly its own hit rows, and touches no other result's hits |
| Results.ResultStore.Persist | internal/modules/articleinspect/worker/executor.go:153-201 | a committed store replaces what the key held by the new result and its hits; a failed one changes nothing; the tables stay consistent |
| Executor.ListCandidateArticles | internal/modules/articleinspect/articles/repository_candidates.go:12-79 | matching articles past the cursor in strictly ascending id order, at most 50, the limit or 200; one is missing only when the page is full and ends before it; the last id is the cursor |
| Executor.PageHasNoGap | internal/modules/articleinspect/articles/repository_candidates.go:45-50 | a page misses no candidate up to its last id, and a short page none at all |
| Executor.StopsEmpty | internal/modules/articleinspect/worker/executor.go:82-84 | stopping on an empty page: the scan is complete exactly when the size is at most 200 or at most 200 articles match |
| Executor.StopsShort | internal/modules/articleinspect/worker/executor.go:104-106 | stopping on a short page: the same equivalence |
| Executor.CutPage | internal/modules/articleinspect/articles/repository_candidates.go:21-23 | a first page cut at 200 is the whole answer exactly when at most 200 articles match |
| Executor.BareFilter | internal/modules/articleinspect/articles/repository_candidates.go:25-44 | without optional conditions the filter is organisation and state, online when none is asked for; a title text selects the titles in which it occurs |
| Executor.OversizedPageMissesArticles | internal/modules/articleinspect/articles/repository_candidates.go:17-23 | any batch size above 200 over 201 articles the filter selects: what the loop promises is 200 of them, not a full scan |
| Executor.ScanOne | internal/modules/articleinspect/worker/executor.go:86-102 | scanning one more article keeps counters, result rows and hit rows in step |
| Executor.ScanPage | internal/modules/articleinspect/worker/executor.go:86-102 | the same for a page |
| Executor.ScanAllPages | internal/modules/articleinspect/worker/executor.go:66-108 | fails if and only if a page it asks for fails, so it completes when none does; the pages follow on one another and only the last is short, each read from the table as it then was; ids are scanned in ascending order, none twice even if the table changes between pages; on a fixed table the scan equals one unpaged scan exactly when the batch size or the matches are at most 200; no other task's results change |
| Executor.ReadPage | internal/modules/articleinspect/worker/executor.go:68-108 | one round: the page is appended to those read, its articles are scanned, and the scan is over exactly when the page is short |
| Executor.RunFinishes | internal/modules/articleinspect/worker/rules.go:67-78 | total = clean + stored + failed, where the failed and hit counts are the numbers of scanned articles that fail and that have hits; the result rows number hit_articles minus store failures, each row describes its hits; success exactly when no article failed, failed exactly when all did and there were some |
| Executor.FatesCount | internal/modules/articleinspect/worker/executor.go:86-102 | scan and store errors together are the positions of articles that could not be scanned or stored, stored and store errors those of articles with hits |
| Executor.ExecuteTask | internal/modules/articleinspect/worker/executor.go:37-112 | which exit is taken, for every input: zero ids, not pending, undecodable rules, the first page that fails, or a completed run, which happens whenever no page fails; the status, counters and tables of each; a completed run satisfies RunFinishes and the paging result; results of other tasks are untouched |
| Executor.ResultsShowFirstRule | internal/modules/articleinspect/worker/executor.go:154-167 | after a completed run with the keyword scanner every result of the task has the risk level and action of the first rule in snapshot order that hits its article, and no article failed to scan |
| Lifecycle.DiffUndoes | internal/modules/articleinspect/lifecycle/diff.go:9-30 | undoing a diff restores the old fields, and the diff is empty exactly when nothing changed |
| Lifecycle.DiffLists | internal/modules/articleinspect/lifecycle/diff.go:9-49 | a diff names exactly the fields that differ, each once, in order, with the text before and after |
| Lifecycle.DiffRedoes | internal/modules/articleinspect/lifecycle/diff.go:9-49 | making the changes of a diff on the old fields gives the new ones |
| Lifecycle.BuildFieldChangeLogs | internal/modules/articleinspect/lifecycle/service.go:279-298 | one log per change, in order |
| Lifecycle.LifecycleService.OfflineArticle | internal/modules/articleinspect/lifecycle/service.go:36-127 | state 9 becomes 8 and states 7 and 8 stay, with one log that says so; other states, unknown and zero ids are refused without a trace; nothing else changes |
| Lifecycle.LifecycleService.UpdateArticleFields | internal/modules/articleinspect/lifecycle/service.go:130-219 | the six fields become the given ones, every field that differs is logged once with both texts, then one operation log; no change writes nothing; nothing else changes |
| Lifecycle.LifecycleService.RepublishArticle | internal/modules/articleinspect/lifecycle/service.go:222-277 | the article waits for audit (state 1) with one log, and is left alone without a log when it did already; nothing else changes |
| Lifecycle.LogsReplay | internal/modules/articleinspect/lifecycle/service.go:36-277 | over any sequence of operations no article becomes online, and folding its logged states from its start state gives its current state |
| Lifecycle.LogsUndo | internal/modules/articleinspect/lifecycle/service.go:130-219 | over any sequence of operations, undoing the field-change logs in reverse restores the original six fields of every article as an editor sees them |
| Lifecycle.LogsRedo | internal/modules/articleinspect/lifecycle/service.go:130-219 | over any sequence of operations, making the logged changes in order on the original articles gives the current six fields of every article as an editor sees them |
| Lifecycle.ShortTitleComesBack | internal/modules/articleinspect/lifecycle/service.go:145-167 | the stored short title comes back exactly when it was not NULL or no rectification touched the article |
| UniqueIds.DropRepeats | internal/modules/articleinspect/actions/service.go:302-326 | the non-zero ids, each once |
| UniqueIds.ExchangeRound | internal/modules/articleinspect/actions/service.go:302-326 | one outer round puts the least remaining id in place and permutes the array |
| UniqueIds.ExchangeSort | internal/modules/articleinspect/actions/service.go:302-326 | the in-place exchange sort sorts and permutes |
| UniqueIds.ActionUniqueIds | internal/modules/articleinspect/actions/service.go:302-326 | the strictly ascending list of the non-zero ids, no longer than the input |
| UniqueIds.TaskUniqueIds | internal/modules/articleinspect/tasks/service.go:309-327 | the same list |
| UniqueIds.UniqueIdsAgree | internal/modules/articleinspect/tasks/service.go:309-327 | there is only one such list and it depends on the set of ids alone, so both versions agree |
| Actions.ActionService.OfflineOne | internal/modules/articleinspect/actions/service.go:87-134 | one result: skipped, failed or offlined together with its article, nothing else touched |
| Actions.ActionService.BatchOffline | internal/modules/articleinspect/actions/service.go:43-152 | the tables after the batch as a function of the tables before it and the set of ids; success, fail and skip count the requested ids that are due and ready, due and not ready, and not due; the status follows; they add up to the size of the set, at most TargetCount |
| Actions.CountsAreMeant | internal/modules/articleinspect/actions/service.go:85-152 | the counters as sizes of three sets read off the tables before the batch, and the status they give |
| Actions.BatchResults | internal/modules/articleinspect/actions/service.go:85-136 | a result is offlined afterwards exactly when it was before, or it was requested by its organisation and its article was in state 7, 8 or 9; such a result shows its article's final state and the action, every other result is as it was |
| Actions.BatchArticles | internal/modules/articleinspect/actions/service.go:85-136 | the online articles of the processed results go from 9 to 8 and no article changes in any other way |
| Actions.ActionService.DisposeOne | internal/modules/articleinspect/actions/service.go:199-282 | one result: changed or skipped, one log per result found |
| Actions.ActionService.ApplyDisposition | internal/modules/articleinspect/actions/service.go:155-300 | exactly the requested results of the organisation get the target disposition; success counts those that changed; one log for each requested result of the organisation, in ascending order, with what it was before |
| Actions.RepeatChangesNothing | internal/modules/articleinspect/actions/service.go:155-300 | repeating an ignore or process batch gives no success and changes no result |
| ExchangeCodes.CodeExpiry | internal/api/handlers/auth.go:281-285 | the smaller of issue reading plus ttl and the session's own expiry |
| ExchangeCodes.ExchangeCodeStore.CleanupExpired | internal/api/handlers/auth.go:338-344 | keeps exactly the entries whose expiry is zero or not yet past |
| ExchangeCodes.ExchangeCodeStore.Issue | internal/api/handlers/auth.go:276-309 | the first of five generated codes not in use is entered with its expiry, none when the generator fails first or all five are in use; no entry in use is overwritten |
| ExchangeCodes.ExchangeCodeStore.Consume | internal/api/handlers/auth.go:311-336 | returns the stored entry of the trimmed code exactly when there is one not past its expiry, removes it, and drops what is past |
| ExchangeCodes.EntryLeaves | internal/api/handlers/auth.go:276-344 | an entry leaves only by its own consumption or a reading past its expiry, and enters only by an Issue of that code |
| ExchangeCodes.LastIssue | internal/api/handlers/auth.go:276-336 | every entry is the one its latest Issue put there, neither issued nor redeemed since |
| ExchangeCodes.RedeemedWasIssued | internal/api/handlers/auth.go:311-336 | a redeemed code was issued and carries the session it was issued for; the redemption is no later than issue plus ttl and session expiry, unless the computed expiry is the zero time |
| ExchangeCodes.RedeemableExactly | internal/api/handlers/auth.go:276-344 | an issued code not redeemed yet can be redeemed if and only if no clock reading since its issue was past its expiry; in particular whenever all readings were in time |
| ExchangeCodes.ZeroExpiryNeverExpires | internal/api/handlers/auth.go:332-340 | a code whose computed expiry is the zero time can be redeemed at any reading |
| ExchangeCodes.InTimeExactly | internal/api/handlers/auth.go:276-344 | every redemption of an issued code is in time if and only if its computed expiry is not the zero time, that is, unless issue plus ttl is the zero time and no session expiry lies before it |
| ExchangeCodes.RedeemedAtMostOnce | internal/api/handlers/auth.go:311-336 | between two redemptions of a code lies a new issue of it |
| SqlSplit.SplitSQLStatements | internal/app/bootstrap/migrate.go:134-164 | the lines of the statements, in order, are the script's lines that are neither blank nor comments, trimmed, without closing semicolons; no statement is empty, padded or has a blank or comment line; printing the statements and splitting again gives the same list |
| SqlSplit.SplitLines | internal/app/bootstrap/migrate.go:138-161 | the line loop with its builder computes the fold that the laws are about |
| SqlSplit.LinesConserved | internal/app/bootstrap/migrate.go:134-164 | for every script no line of text is lost, added or reordered |
| SqlSplit.CutAtClosingLine | internal/app/bootstrap/migrate.go:150-156 | a line that closes a statement cuts the script in two: what follows is split as if it stood alone |
| SqlSplit.OneStatementUpToClosingLine | internal/app/bootstrap/migrate.go:150-161 | lines of which none but the last closes a statement give at most one |
| SqlSplit.LinesAre | internal/app/bootstrap/migrate.go:138-139 | the line reader loses nothing but line breaks and the carriage return before them |
| SqlSplit.NoBlankOrComment | internal/app/bootstrap/migrate.go:139-161 | no statement is empty or padded, and none of its lines is blank, padded or a comment |
| SqlSplit.PrintThenSplit | internal/app/bootstrap/migrate.go:134-164 | any list of well-formed statements, printed with ";" and newline after each, splits into the same list |
| SqlSplit.SplitIsStable | internal/app/bootstrap/migrate.go:134-164 | for every script, printing its statements and splitting again gives the same list |

## Left out

- Lifecycle.LogsReplay: assumes that each operation's log is written; offline and republish ignore an error of the log write.
- Database errors inside relay calls, the result store and batch actions: in the step system they are steps that drop the caller, in the executor they are parameters, elsewhere they are not modelled.
- gorm, MySQL, Redis and Asynq internals: a conditional update with its affected row, an atomic transaction, and a queue that may deliver whatever it accepted any number of times.
- JSON encoding and rule-snapshot decoding: the decoded payload, or the fact that decoding failed, is part of the state or a parameter.
- Regular expressions: the spans the library finds are a parameter; only the pattern guard and the building of hits are modelled.
- Unicode case tables and byte offsets: lower-casing is any map from character to character, so it keeps lengths, and case folding any map to a representative of each class.
- Status, match-type, scope and risk strings are enumerations or plain strings after trimming; a row with an unknown status is not modelled.
- The columns claimed_by and last_error, and operator, snapshot and diff-summary texts: written and never read by the modelled code.
- Task keywords and the result, log and action tables in the delete cascade: the step system removes the task and its outbox rows.
- The SQL LIKE filter on titles is a case-sensitive substring test; collations and wildcard characters in the pattern are not modelled.
- The 64 KB line limit of the migration script reader: scripts are taken to have lines within it.
- A configured republish target other than audit pending: the program never sets one.
- Task creation checks, article queries, keyword and category management, the post demo module: they would only add easy members.
- HTTP routes, middleware, configuration, logging, cron wiring, JWT signing and the React admin application.
