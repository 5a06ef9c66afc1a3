# Commit sync and task scheduling

This project models the sync step of the Cocoon build dashboard in Dafny.
The step takes the commits of the `flutter/flutter` feed, already fetched and
decoded, in feed order (newest first). It runs one cross-group datastore
transaction over them:

- A commit whose checklist key `("flutter/flutter", sha)` is absent gets a
  checklist and the 13 tasks of the fixed template, and is reported `Synced`.
  The checklist's `CreateTimestamp` comes from a clock reading taken once
  before the loop. That reading drops by one millisecond for every new
  commit, so newer commits sort first.
- Every other commit is reported `Skipped` and nothing is written for it.
- The first failed put aborts the transaction. The caller then gets the
  error and no result, and nothing of the batch is stored.

Modules:

- `Db` (`db.dfy`): the records the sync reads and writes (commit, checklist
  key, checklist, task). It also holds the store handle `Cocoon`, a class
  whose fields are the committed checklists (keyed) and the committed tasks
  (in put order).
- `TaskTemplate` (`task_template.dfy`): `createTaskList`. It is a constant
  table of 13 (stage, name, capabilities) rows, bound to a checklist key with
  status `New` and zero timestamps.
- `Commands` (`commands.dfy`): the transaction.
  - The functions `SyncCommit`, `SyncFrom` and `Sync` are its specification.
  - `TransactionBody` is the closure run inside the transaction. It is a loop
    over the commits that fills a preallocated result array in place,
    decrements the clock copy, and returns at the first failed put.
    `PutTaskList` is its inner loop.
  - `RefreshGithubCommits` runs the closure on a staged copy of the store held
    by a `Cocoon`. It publishes the staged writes only when the closure
    returns no error.
- `SyncProperties` (`sync_properties.dfy`): reference definitions of what a
  sync writes and when it fails. `SyncFromClosedForm` proves that the
  transaction equals them. The other lemmas state the sync's promises over
  the whole batch.

How the store is modelled:

- **Reads see the store as it was when the transaction began.** An
  App Engine datastore transaction does not see its own uncommitted puts, so
  the existence check (`refresh_github_commits.go:53`) reads that snapshot. A
  SHA that occurs twice in one batch is therefore `Synced` twice. Its
  checklist is put twice, and the later put, with the lower timestamp, stays.
  It also gets the template twice (`SyncProperties.NewTasksOfKey`). The sync
  itself has no precondition on the batch. Only the lemmas whose statements
  need distinct SHAs require them.
- **Put failures are an oracle.** The parameter `failingPuts` is the set of
  put positions that fail. Positions are counted from 0 over all the puts of
  one transaction, checklists and tasks alike. A failing put `n` yields the
  error `PutFailed(n)`.
- **The clock is a parameter.** `nowMillisSinceEpoch` stands for
  `time.Now().UnixNano() / 1000000`.

## Model

| member | source | states |
|---|---|---|
| Db.NewChecklistKey | commands/refresh_github_commits.go:52 | No contract: the key of a checklist is its repository path and SHA. `SyncProperties.StagedKeysMatch` states that every stored checklist sits under this key. |
| TaskTemplate.MakeTask | commands/refresh_github_commits.go:97-107 | No contract: the `makeTask` closure. `TaskTemplate.CreateTaskList` states each task it builds. |
| TaskTemplate.CreateTaskList | commands/refresh_github_commits.go:96-127 | Returns exactly 13 tasks. Task i carries the template's stage, name and capabilities of row i, is bound to the given checklist key, has status `New`, and has start and end timestamps 0. |
| TaskTemplate.TemplateIndependentOfKey | commands/refresh_github_commits.go:96-107 | Two keys' task lists differ only in the key: the template does not depend on the commit. |
| Commands.ChecklistKeyOf | commands/refresh_github_commits.go:52 | No contract: the key `("flutter/flutter", sha)` of a commit. `SyncProperties.OutcomeRule` states outcomes in terms of it. |
| Commands.PutChecklist | commands/refresh_github_commits.go:54-58 | No contract: the checklist put, which fails exactly when its position is in `failingPuts`. `SyncProperties.SyncCommitClosedForm` states its effect within one iteration. |
| Commands.PutTask | commands/refresh_github_commits.go:71 | No contract: the task put, failing in the same way. `SyncProperties.PutTasksClosedForm` states it. |
| Commands.PutTasks | commands/refresh_github_commits.go:70-75 | No contract: the specification of the inner task loop. `SyncProperties.PutTasksClosedForm` states it in closed form, and `Commands.PutTaskList` is proved equal to it. |
| Commands.SyncCommit | commands/refresh_github_commits.go:50-79 | No contract: the specification of one iteration of the loop. `SyncProperties.SyncCommitClosedForm` states it in closed form. |
| Commands.SyncFrom | commands/refresh_github_commits.go:49-80 | No contract: the specification of the loop from any state. `SyncProperties.SyncFromClosedForm` states it in closed form. |
| Commands.Sync | commands/refresh_github_commits.go:44-49 | An empty batch succeeds with no results, no puts and the store as it was. |
| Commands.PutTaskList | commands/refresh_github_commits.go:69-75 | The loop puts the tasks in order and returns the first failed put's error. It equals the recursive `PutTasks`. |
| Commands.TransactionBody | commands/refresh_github_commits.go:44-81 | The in-place loop over the commits, the result array and the decrementing clock yields exactly the transaction `Sync`: the same staged writes, results and error. |
| Commands.RefreshGithubCommits | commands/refresh_github_commits.go:44-92 | On success the store becomes the staged writes and the results are returned. On any error the error is returned and the store is unchanged. An empty batch returns an empty result and changes nothing. |
| SyncProperties.FirstFailure | commands/refresh_github_commits.go:65-74 | Is None exactly when no put in the range fails; otherwise it is the least failing put in the range. |
| SyncProperties.Outcomes | commands/refresh_github_commits.go:45-51 | Has one entry per commit: entry i is commit i's SHA with `Synced` if it was new and `Skipped` otherwise. |
| SyncProperties.PutTasksClosedForm | commands/refresh_github_commits.go:70-75 | Putting a task list fails at the first failing put among its positions; otherwise it appends the whole list and advances the put counter by its length. |
| SyncProperties.SyncCommitClosedForm | commands/refresh_github_commits.go:50-79 | One iteration: a known commit only appends `Skipped`. A new commit fails at the first failing put among its 14 puts, or else puts its checklist with the current timestamp and its 13 tasks, decrements the clock and appends `Synced`. |
| SyncProperties.SyncFromStep | commands/refresh_github_commits.go:49-80 | The loop from any state takes one iteration in the way `SyncCommitClosedForm` states, then carries on with the rest of the batch. |
| SyncProperties.FinalAfterSynced | commands/refresh_github_commits.go:53-76 | The reference writes of a batch that starts with a new commit equal synchronizing that commit and then writing the reference writes of the rest. |
| SyncProperties.FinalAfterSkipped | commands/refresh_github_commits.go:77-79 | The reference writes of a batch that starts with a known commit equal skipping that commit and then writing the reference writes of the rest. |
| SyncProperties.NewTasksAfterSynced | commands/refresh_github_commits.go:69-75 | A new first commit contributes its template ahead of the tasks of the rest of the batch. |
| SyncProperties.ClosedFormSkipped | commands/refresh_github_commits.go:77-79 | Skipping a known commit leaves the transaction's overall outcome unchanged. |
| SyncProperties.ClosedFormFailed | commands/refresh_github_commits.go:65-74 | When one of a new commit's 14 puts fails, the transaction's outcome is that put's error, whatever follows. |
| SyncProperties.ClosedFormSynced | commands/refresh_github_commits.go:53-76 | When a new commit's 14 puts all succeed, the outcome from the next state is the outcome from the current one. |
| SyncProperties.SyncFromClosedForm | commands/refresh_github_commits.go:48-86 | The transaction from any intermediate state fails at exactly the first failing put among the 14 per new commit. Otherwise it stages the reference checklists, the reference tasks, the decremented clock and the outcome list. |
| SyncProperties.SyncClosedForm | commands/refresh_github_commits.go:48-86 | The same, for a whole transaction starting from the store and put 0. |
| SyncProperties.SyncFailsOnlyOnFailedPut | commands/refresh_github_commits.go:65-74 | A sync succeeds exactly when none of its first 14 × (number of new commits) puts fails. On failure it reports the least failing put. |
| SyncProperties.ResultAlignment | commands/refresh_github_commits.go:45-51 | On success there is exactly one result per input commit, in input order, and result i names commit i's SHA. |
| SyncProperties.OutcomeRule | commands/refresh_github_commits.go:52-78 | On success every outcome is `Synced` or `Skipped`. It is `Synced` exactly when the key `("flutter/flutter", sha)` was absent from the store when the transaction began. |
| SyncProperties.TimestampAssignment | commands/refresh_github_commits.go:46-63 | A new commit's checklist (the last one put for its SHA) is stamped t0 − k, where k is the number of new commits before it. Skipped commits consume no value. |
| SyncProperties.TimestampsStrictlyDecreasing | commands/refresh_github_commits.go:46-63 | The surviving checklists of new commits have timestamps that strictly decrease in feed order. Surviving means the last occurrence of a SHA, which with distinct SHAs is every commit. |
| SyncProperties.NewCountGrows | commands/refresh_github_commits.go:53-63 | A new commit counts among the new commits before every later position, so a later commit's timestamp is lower. |
| SyncProperties.SkippedCommitsWriteNothing | commands/refresh_github_commits.go:77-79 | On success every existing checklist and its tasks are untouched. Only the new keys gain checklists. The task store only grows, by the new commits' templates, and none of the new tasks is bound to an existing checklist. |
| SyncProperties.FullTaskSet | commands/refresh_github_commits.go:69-75 | With distinct SHAs, 13 tasks are added per new commit, and the tasks bound to each new checklist are exactly its template. |
| SyncProperties.NewTasksOfKey | commands/refresh_github_commits.go:53-75 | The tasks a batch adds for a key are the template repeated once per new occurrence of that key in the batch. |
| SyncProperties.NewTasksOfKeyHead | commands/refresh_github_commits.go:53-75 | The tasks one commit adds that are bound to a key are the whole template when the commit is new and has that key, and none otherwise. |
| SyncProperties.NewTasksBound | commands/refresh_github_commits.go:69-75 | The batch adds 13 tasks per new commit, each bound to one of the new keys. |
| SyncProperties.StagedChecklistsKeys | commands/refresh_github_commits.go:53-58 | The keys after a sync are the old keys plus the new commits' keys. |
| SyncProperties.StagedChecklistsElsewhere | commands/refresh_github_commits.go:53-58 | A key that no new commit has keeps its previous checklist, or stays absent. |
| SyncProperties.StagedChecklistsLast | commands/refresh_github_commits.go:53-63 | The last new commit with a given SHA leaves its checklist, stamped with the clock reading less the number of new commits before it. |
| SyncProperties.NewKeysMember | commands/refresh_github_commits.go:52-53 | A key is among the new keys exactly when some commit of the batch has it and was new. |
| SyncProperties.NewKeysAreNew | commands/refresh_github_commits.go:53 | No new key was in the store before the sync. |
| SyncProperties.NewOccurrencesDistinct | commands/refresh_github_commits.go:49-53 | With distinct SHAs, a new key comes from exactly one commit. |
| SyncProperties.NothingNew | commands/refresh_github_commits.go:77-79 | A batch of commits that all have checklists counts no new commit, adds no task and changes no checklist. |
| SyncProperties.Idempotence | commands/refresh_github_commits.go:53-78 | Rerunning a successful sync on its result store, at any clock reading and under any put failures, succeeds. It reports `Skipped` for every commit and stages no write. |
| SyncProperties.StagedKeysMatch | commands/refresh_github_commits.go:52-58 | Every checklist the sync leaves sits under the key made from its own repository path and SHA. |
| SyncProperties.StagedTasksMatch | commands/refresh_github_commits.go:54-75 | With distinct SHAs, no task is left without its checklist, and every checklist keeps exactly the template's tasks. |
| SyncProperties.SyncPreservesWellFormed | commands/refresh_github_commits.go:48-86 | With distinct SHAs, a successful sync keeps the store well formed: one checklist per key, no orphan task, and the full template for every checklist. |

## Left out

- The GitHub fetch and JSON decode (`refresh_github_commits.go:32-39`) are network and decoding plumbing. The decoded commit sequence is taken as input instead. If the request itself fails (line 35), the response is nil and the deferred `Body.Close()` at line 36 panics, so the sync never runs. A failed `ReadAll` or `Unmarshal` (lines 37, 39) is ignored and leaves an empty batch, which `Commands.RefreshGithubCommits` handles as empty input.
- The debug log line (`refresh_github_commits.go:41`) has no effect on the store or the result.
- The clock (`time.Now()`, line 46) is the parameter `nowMillisSinceEpoch`.
- The package `cocoon/db` and App Engine's datastore (`RunInTransaction`, `NewChecklistKey`, `EntityExists`, `PutChecklist`, `PutTask`, `TransactionOptions{XG: true}`) are not part of this model. They are modelled abstractly: a keyed checklist map, a task sequence, snapshot reads, a put-failure oracle and atomic publication.
- A failure of the transaction's own commit (for example a contention retry in `RunInTransaction` after the closure returned no error) is not modelled. Publication succeeds whenever every put did. A retry would differ from a first attempt in the source: the closure captures `nowMillisSinceEpoch` by reference and lowers it at line 63 even before a failed put returns. A rerun closure would therefore start from the already-lowered clock, not from t0. `SyncProperties.TimestampAssignment`'s t0 − k describes a first attempt only.
- Task keys are allocated by the datastore (`PutTask(nil, task)`). The model keeps tasks as a sequence in put order and does not model their keys.
- `int64` overflow of the timestamp is not modelled. Integers are unbounded, and a clock reading near the minimum `int64` is not a realistic input.
- Concurrent invocations on the same commits are resolved by the datastore's isolation, not by this code.
- A `nil` entry in the decoded commit slice (which would panic at line 51) is not modelled. Commits are values.
- Fields of a commit other than its SHA are one opaque `details` string, copied into the checklist unread.
- FullTaskSet: requires distinct SHAs. With a repeated SHA the key gets the template once per occurrence, as `NewTasksOfKey` states.
- StagedTasksMatch: requires distinct SHAs, for the same reason as `FullTaskSet`.
- SyncPreservesWellFormed: requires distinct SHAs, for the same reason as `FullTaskSet`.
