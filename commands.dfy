/**
 * The commit sync: every commit of the feed that has no checklist yet gets
 * one, with a locally assigned ordering timestamp, plus the template's tasks,
 * all inside one transaction that publishes either every write or none.
 *
 * The store's transaction is modelled as a staged copy (`Staged`) that the
 * transaction body writes to; the existence check reads the store as it was
 * when the transaction began. Whether the n-th put of the transaction fails
 * is given by the oracle `failingPuts`.
 */
module Commands {
  import opened Db
  import opened TaskTemplate

  const FlutterRepositoryPath := "flutter/flutter"
  const Synced := "Synced"
  const Skipped := "Skipped"

  /** A new commit costs one checklist put and one put per template task
      (1 + TemplateSize). */
  const PutsPerNewCommit := 14

  /** What happened to one commit of the feed. */
  datatype CommitSyncResult = CommitSyncResult(commit: string, outcome: string)

  datatype RefreshGithubCommitsResult = RefreshGithubCommitsResult(results: seq<CommitSyncResult>)

  function ChecklistKeyOf(commit: CommitInfo): ChecklistKey {
    NewChecklistKey(FlutterRepositoryPath, commit.sha)
  }

  /** A transaction's view of the store: the checklists and tasks it would
      publish, and how many puts it has made so far. */
  datatype Staged = Staged(checklists: map<ChecklistKey, Checklist>, tasks: seq<Task>, puts: nat)

  function PutChecklist(s: Staged, key: ChecklistKey, checklist: Checklist, failingPuts: set<nat>): Result<Staged> {
    if s.puts in failingPuts then Err(PutFailed(s.puts))
    else Ok(Staged(s.checklists[key := checklist], s.tasks, s.puts + 1))
  }

  function PutTask(s: Staged, task: Task, failingPuts: set<nat>): Result<Staged> {
    if s.puts in failingPuts then Err(PutFailed(s.puts))
    else Ok(Staged(s.checklists, s.tasks + [task], s.puts + 1))
  }

  /** Puts `tasks` in order, stopping at the first put that fails. */
  function PutTasks(s: Staged, tasks: seq<Task>, failingPuts: set<nat>): Result<Staged>
    decreases |tasks|
  {
    if tasks == [] then Ok(s)
    else match PutTask(s, tasks[0], failingPuts)
      case Err(e) => Err(e)
      case Ok(s1) => PutTasks(s1, tasks[1..], failingPuts)
  }

  /** The state of the sync loop between two commits: the staged writes, the
      timestamp the next new commit gets, and the results so far. */
  datatype Progress = Progress(staged: Staged, nowMillis: int, results: seq<CommitSyncResult>)

  /** One iteration of the sync loop. The existence check reads `snapshot`,
      the store as it was when the transaction began. */
  function SyncCommit(snapshot: map<ChecklistKey, Checklist>, p: Progress, commit: CommitInfo, failingPuts: set<nat>): Result<Progress> {
    var key := ChecklistKeyOf(commit);
    if key !in snapshot then
      match PutChecklist(p.staged, key, Checklist(FlutterRepositoryPath, commit, p.nowMillis), failingPuts)
      case Err(e) => Err(e)
      case Ok(s1) =>
        match PutTasks(s1, CreateTaskList(key), failingPuts)
        case Err(e) => Err(e)
        case Ok(s2) => Ok(Progress(s2, p.nowMillis - 1, p.results + [CommitSyncResult(commit.sha, Synced)]))
    else
      Ok(Progress(p.staged, p.nowMillis, p.results + [CommitSyncResult(commit.sha, Skipped)]))
  }

  function SyncFrom(snapshot: map<ChecklistKey, Checklist>, commits: seq<CommitInfo>, p: Progress, failingPuts: set<nat>): Result<Progress>
    decreases |commits|
  {
    if commits == [] then Ok(p)
    else match SyncCommit(snapshot, p, commits[0], failingPuts)
      case Err(e) => Err(e)
      case Ok(p1) => SyncFrom(snapshot, commits[1..], p1, failingPuts)
  }

  /** The whole transaction over a store holding `checklists` and `tasks`,
      with the clock reading `nowMillis` when the sync began. */
  function Sync(checklists: map<ChecklistKey, Checklist>, tasks: seq<Task>, commits: seq<CommitInfo>, nowMillis: int, failingPuts: set<nat>): (r: Result<Progress>)
    ensures commits == [] ==> r == Ok(Progress(Staged(checklists, tasks, 0), nowMillis, []))
  {
    SyncFrom(checklists, commits, Progress(Staged(checklists, tasks, 0), nowMillis, []), failingPuts)
  }

  /** The inner loop of the sync: puts `taskList` task by task, returning at
      the first put that fails. */
  method PutTaskList(s: Staged, taskList: seq<Task>, failingPuts: set<nat>) returns (r: Result<Staged>)
    ensures r == PutTasks(s, taskList, failingPuts)
  {
    var staged := s;
    for j := 0 to |taskList|
      invariant PutTasks(s, taskList, failingPuts) == PutTasks(staged, taskList[j..], failingPuts)
    {
      assert taskList[j..][1..] == taskList[j + 1..];
      var put := PutTask(staged, taskList[j], failingPuts);
      if put.Err? {
        return Err(put.error);
      }
      staged := put.value;
    }
    return Ok(staged);
  }

  /** The function run inside the transaction: the loop over the commits,
      writing to the staged copy of the store that began as `checklists` and
      `tasks`, and returning at the first failed put. */
  method TransactionBody(checklists: map<ChecklistKey, Checklist>, tasks: seq<Task>, commits: seq<CommitInfo>, nowMillisSinceEpoch: int, failingPuts: set<nat>)
    returns (r: Result<Progress>)
    ensures r == Sync(checklists, tasks, commits, nowMillisSinceEpoch, failingPuts)
  {
    var commitResults := new CommitSyncResult[|commits|];
    var staged := Staged(checklists, tasks, 0);
    var now := nowMillisSinceEpoch;
    for i := 0 to |commits|
      invariant Sync(checklists, tasks, commits, nowMillisSinceEpoch, failingPuts)
             == SyncFrom(checklists, commits[i..], Progress(staged, now, commitResults[..i]), failingPuts)
    {
      ghost var before := Progress(staged, now, commitResults[..i]);
      var commit := commits[i];
      commitResults[i] := commitResults[i].(commit := commit.sha);
      var checklistKey := ChecklistKeyOf(commit);
      assert commits[i..][1..] == commits[i + 1..];
      if checklistKey !in checklists {
        var put := PutChecklist(staged, checklistKey, Checklist(FlutterRepositoryPath, commit, now), failingPuts);
        now := now - 1;
        if put.Err? {
          return Err(put.error);
        }
        staged := put.value;
        var putTasks := PutTaskList(staged, CreateTaskList(checklistKey), failingPuts);
        if putTasks.Err? {
          return Err(putTasks.error);
        }
        staged := putTasks.value;
        commitResults[i] := commitResults[i].(outcome := Synced);
      } else {
        commitResults[i] := commitResults[i].(outcome := Skipped);
      }
      assert commitResults[..i + 1] == before.results + [commitResults[i]];
    }
    assert commits[|commits|..] == [];
    assert commitResults[..|commits|] == commitResults[..];
    return Ok(Progress(staged, now, commitResults[..]));
  }

  /** The sync: runs the transaction body against the store held by `cocoon`
      and publishes its staged writes only when every put succeeded. */
  method RefreshGithubCommits(cocoon: Cocoon, commits: seq<CommitInfo>, nowMillisSinceEpoch: int, failingPuts: set<nat>)
    returns (r: Result<RefreshGithubCommitsResult>)
    modifies cocoon
    ensures match Sync(old(cocoon.checklists), old(cocoon.tasks), commits, nowMillisSinceEpoch, failingPuts)
      case Ok(p) =>
        && r == Ok(RefreshGithubCommitsResult(p.results))
        && cocoon.checklists == p.staged.checklists
        && cocoon.tasks == p.staged.tasks
      case Err(e) =>
        && r == Err(e)
        && cocoon.checklists == old(cocoon.checklists)
        && cocoon.tasks == old(cocoon.tasks)
    ensures r.Err? ==> cocoon.checklists == old(cocoon.checklists) && cocoon.tasks == old(cocoon.tasks)
    ensures commits == [] ==> r == Ok(RefreshGithubCommitsResult([])) && cocoon.checklists == old(cocoon.checklists) && cocoon.tasks == old(cocoon.tasks)
  {
    var tx := TransactionBody(cocoon.checklists, cocoon.tasks, commits, nowMillisSinceEpoch, failingPuts);
    match tx
    case Err(e) =>
      return Err(e);
    case Ok(p) =>
      cocoon.checklists, cocoon.tasks := p.staged.checklists, p.staged.tasks;
      return Ok(RefreshGithubCommitsResult(p.results));
  }
}
