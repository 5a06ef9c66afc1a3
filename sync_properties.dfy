/**
 * What the commit sync promises, proved about the transaction `Sync`.
 *
 * The first part gives reference definitions of what a successful sync
 * writes (which commits are new, the checklists and tasks they get, the
 * outcome list) and of when a sync fails (the first failing put). The closed
 * form lemma `SyncFromClosedForm` ties the transaction to them; the lemmas
 * after it state each property of the sync over the whole batch.
 */
module SyncProperties {
  import opened Db
  import opened TaskTemplate
  import opened Commands

  // ---------------------------------------------------------------------
  // Reference definitions
  // ---------------------------------------------------------------------

  /** A commit is new when the store held no checklist for it when the
      transaction began. */
  predicate IsNew(snapshot: map<ChecklistKey, Checklist>, commit: CommitInfo) {
    ChecklistKeyOf(commit) !in snapshot
  }

  /** No later commit of the batch has the same SHA as commit `i`. */
  predicate LastOccurrence(commits: seq<CommitInfo>, i: int)
    requires 0 <= i < |commits|
  {
    forall j :: i < j < |commits| ==> commits[j].sha != commits[i].sha
  }

  predicate DistinctShas(commits: seq<CommitInfo>) {
    forall i, j :: 0 <= i < j < |commits| ==> commits[i].sha != commits[j].sha
  }

  /** The number of new commits, counting a repeated SHA once per occurrence. */
  function NewCount(snapshot: map<ChecklistKey, Checklist>, commits: seq<CommitInfo>): nat {
    if commits == [] then 0
    else
      var first := if IsNew(snapshot, commits[0]) then 1 else 0;
      first + NewCount(snapshot, commits[1..])
  }

  /** The keys of the new commits. */
  function NewKeys(snapshot: map<ChecklistKey, Checklist>, commits: seq<CommitInfo>): set<ChecklistKey> {
    if commits == [] then {}
    else
      var first := if IsNew(snapshot, commits[0]) then {ChecklistKeyOf(commits[0])} else {};
      first + NewKeys(snapshot, commits[1..])
  }

  /** The number of new commits whose checklist key is `key`. */
  function NewOccurrences(snapshot: map<ChecklistKey, Checklist>, commits: seq<CommitInfo>, key: ChecklistKey): nat {
    if commits == [] then 0
    else
      var first := if IsNew(snapshot, commits[0]) && ChecklistKeyOf(commits[0]) == key then 1 else 0;
      first + NewOccurrences(snapshot, commits[1..], key)
  }

  /** The result list a successful sync reports: one entry per commit, in
      feed order, `Synced` for the new ones and `Skipped` for the others. */
  function Outcomes(snapshot: map<ChecklistKey, Checklist>, commits: seq<CommitInfo>): (r: seq<CommitSyncResult>)
    ensures |r| == |commits|
    ensures forall i :: 0 <= i < |commits| ==>
      r[i] == CommitSyncResult(commits[i].sha, if IsNew(snapshot, commits[i]) then Synced else Skipped)
  {
    if commits == [] then []
    else
      var first := CommitSyncResult(commits[0].sha, if IsNew(snapshot, commits[0]) then Synced else Skipped);
      [first] + Outcomes(snapshot, commits[1..])
  }

  /** The tasks a successful sync puts: the template for each new commit,
      in feed order. */
  function NewTasks(snapshot: map<ChecklistKey, Checklist>, commits: seq<CommitInfo>): seq<Task> {
    if commits == [] then []
    else
      var first := if IsNew(snapshot, commits[0]) then CreateTaskList(ChecklistKeyOf(commits[0])) else [];
      first + NewTasks(snapshot, commits[1..])
  }

  /** The checklist map a successful sync leaves, starting from `staged`:
      each new commit puts its checklist with the next timestamp, counting
      down from `nowMillis`. */
  function StagedChecklists(staged: map<ChecklistKey, Checklist>, snapshot: map<ChecklistKey, Checklist>, commits: seq<CommitInfo>, nowMillis: int): map<ChecklistKey, Checklist>
    decreases |commits|
  {
    if commits == [] then staged
    else if IsNew(snapshot, commits[0]) then
      StagedChecklists(staged[ChecklistKeyOf(commits[0]) := Checklist(FlutterRepositoryPath, commits[0], nowMillis)],
                       snapshot, commits[1..], nowMillis - 1)
    else StagedChecklists(staged, snapshot, commits[1..], nowMillis)
  }

  /** Everything a sync from `p` stages when none of its puts fails. */
  function Final(snapshot: map<ChecklistKey, Checklist>, commits: seq<CommitInfo>, p: Progress): Progress {
    var n := NewCount(snapshot, commits);
    Progress(
      Staged(StagedChecklists(p.staged.checklists, snapshot, commits, p.nowMillis),
             p.staged.tasks + NewTasks(snapshot, commits),
             p.staged.puts + PutsPerNewCommit * n),
      p.nowMillis - n,
      p.results + Outcomes(snapshot, commits))
  }

  /** One new commit synced without failure: its checklist with the current
      timestamp, its template tasks, 1 + 13 puts and a `Synced` outcome. */
  function SyncedStep(p: Progress, commit: CommitInfo): Progress {
    var key := ChecklistKeyOf(commit);
    Progress(
      Staged(p.staged.checklists[key := Checklist(FlutterRepositoryPath, commit, p.nowMillis)],
             p.staged.tasks + CreateTaskList(key),
             p.staged.puts + PutsPerNewCommit),
      p.nowMillis - 1,
      p.results + [CommitSyncResult(commit.sha, Synced)])
  }

  /** One commit that already had a checklist: only a `Skipped` outcome. */
  function SkippedStep(p: Progress, commit: CommitInfo): Progress {
    Progress(p.staged, p.nowMillis, p.results + [CommitSyncResult(commit.sha, Skipped)])
  }

  /** The first put numbered in [lo, hi) that the store makes fail. */
  function FirstFailure(failingPuts: set<nat>, lo: nat, hi: nat): (r: Option<nat>)
    ensures r.None? <==> forall n: nat :: lo <= n < hi ==> n !in failingPuts
    ensures r.Some? ==>
      && lo <= r.value < hi
      && r.value in failingPuts
      && forall n: nat :: lo <= n < r.value ==> n !in failingPuts
    decreases hi - lo
  {
    if hi <= lo then None
    else if lo in failingPuts then Some(lo)
    else FirstFailure(failingPuts, lo + 1, hi)
  }

  /** The tasks of `tasks` that are bound to `key`, in order. */
  function TasksOf(tasks: seq<Task>, key: ChecklistKey): seq<Task> {
    if tasks == [] then []
    else (if tasks[0].checklistKey == key then [tasks[0]] else []) + TasksOf(tasks[1..], key)
  }

  function Repeat(tasks: seq<Task>, n: nat): seq<Task> {
    if n == 0 then [] else tasks + Repeat(tasks, n - 1)
  }

  /** The store's invariants: a checklist is stored under the key of its own
      repository path and SHA, so one checklist per commit; no task is
      without its checklist; and every checklist has exactly the template's
      tasks. */
  predicate WellFormed(checklists: map<ChecklistKey, Checklist>, tasks: seq<Task>) {
    UnderOwnKeys(checklists) && TasksComplete(checklists, tasks)
  }

  /** Every checklist is stored under the key of its own path and SHA. */
  predicate UnderOwnKeys(checklists: map<ChecklistKey, Checklist>) {
    forall k :: k in checklists ==>
      k == NewChecklistKey(checklists[k].flutterRepositoryPath, checklists[k].commit.sha)
  }

  /** No task is without its checklist, and every checklist has exactly the
      template's tasks. */
  predicate TasksComplete(checklists: map<ChecklistKey, Checklist>, tasks: seq<Task>) {
    && (forall i :: 0 <= i < |tasks| ==> tasks[i].checklistKey in checklists)
    && (forall k :: k in checklists ==> TasksOf(tasks, k) == CreateTaskList(k))
  }

  // ---------------------------------------------------------------------
  // The transaction in closed form
  // ---------------------------------------------------------------------

  lemma FirstFailureSplit(failingPuts: set<nat>, lo: nat, mid: nat, hi: nat)
    requires lo <= mid <= hi
    ensures FirstFailure(failingPuts, lo, hi)
         == if FirstFailure(failingPuts, lo, mid).Some? then FirstFailure(failingPuts, lo, mid)
            else FirstFailure(failingPuts, mid, hi)
  {
    var a, b, c := FirstFailure(failingPuts, lo, hi), FirstFailure(failingPuts, lo, mid), FirstFailure(failingPuts, mid, hi);
    if b.Some? {
      assert a.Some?;
      assert a.value == b.value;
    } else if c.Some? {
      assert a.Some?;
      assert a.value == c.value;
    }
  }

  lemma {:induction false} PutTasksClosedForm(s: Staged, tasks: seq<Task>, failingPuts: set<nat>)
    ensures PutTasks(s, tasks, failingPuts)
         == match FirstFailure(failingPuts, s.puts, s.puts + |tasks|)
            case Some(n) => Err(PutFailed(n))
            case None => Ok(Staged(s.checklists, s.tasks + tasks, s.puts + |tasks|))
    decreases |tasks|
  {
    if tasks == [] {
      assert s.tasks + tasks == s.tasks;
    } else if s.puts in failingPuts {
      assert FirstFailure(failingPuts, s.puts, s.puts + |tasks|) == Some(s.puts);
    } else {
      var s1 := Staged(s.checklists, s.tasks + [tasks[0]], s.puts + 1);
      PutTasksClosedForm(s1, tasks[1..], failingPuts);
      assert FirstFailure(failingPuts, s.puts, s.puts + |tasks|) == FirstFailure(failingPuts, s1.puts, s1.puts + |tasks[1..]|);
      assert s.tasks + [tasks[0]] + tasks[1..] == s.tasks + tasks;
    }
  }

  lemma SyncCommitClosedForm(snapshot: map<ChecklistKey, Checklist>, p: Progress, commit: CommitInfo, failingPuts: set<nat>)
    ensures SyncCommit(snapshot, p, commit, failingPuts)
         == if !IsNew(snapshot, commit) then Ok(SkippedStep(p, commit))
            else match FirstFailure(failingPuts, p.staged.puts, p.staged.puts + PutsPerNewCommit)
              case Some(n) => Err(PutFailed(n))
              case None => Ok(SyncedStep(p, commit))
  {
    if IsNew(snapshot, commit) && p.staged.puts !in failingPuts {
      var key := ChecklistKeyOf(commit);
      var s1 := Staged(p.staged.checklists[key := Checklist(FlutterRepositoryPath, commit, p.nowMillis)], p.staged.tasks, p.staged.puts + 1);
      PutTasksClosedForm(s1, CreateTaskList(key), failingPuts);
    }
  }

  lemma NewTasksAfterSynced(snapshot: map<ChecklistKey, Checklist>, commits: seq<CommitInfo>, tasks: seq<Task>)
    requires commits != [] && IsNew(snapshot, commits[0])
    ensures tasks + CreateTaskList(ChecklistKeyOf(commits[0])) + NewTasks(snapshot, commits[1..])
         == tasks + NewTasks(snapshot, commits)
  {
    assert NewTasks(snapshot, commits) == CreateTaskList(ChecklistKeyOf(commits[0])) + NewTasks(snapshot, commits[1..]);
  }

  lemma OutcomesAfterStep(snapshot: map<ChecklistKey, Checklist>, commits: seq<CommitInfo>, results: seq<CommitSyncResult>)
    requires commits != []
    ensures results + [CommitSyncResult(commits[0].sha, if IsNew(snapshot, commits[0]) then Synced else Skipped)] + Outcomes(snapshot, commits[1..])
         == results + Outcomes(snapshot, commits)
  {
  }

  lemma FinalAfterSynced(snapshot: map<ChecklistKey, Checklist>, commits: seq<CommitInfo>, p: Progress)
    requires commits != [] && IsNew(snapshot, commits[0])
    ensures Final(snapshot, commits[1..], SyncedStep(p, commits[0])) == Final(snapshot, commits, p)
  {
    NewTasksAfterSynced(snapshot, commits, p.staged.tasks);
    OutcomesAfterStep(snapshot, commits, p.results);
  }

  lemma FinalAfterSkipped(snapshot: map<ChecklistKey, Checklist>, commits: seq<CommitInfo>, p: Progress)
    requires commits != [] && !IsNew(snapshot, commits[0])
    ensures Final(snapshot, commits[1..], SkippedStep(p, commits[0])) == Final(snapshot, commits, p)
  {
    var c, rest := commits[0], commits[1..];
    assert NewTasks(snapshot, commits) == NewTasks(snapshot, rest);
    OutcomesAfterStep(snapshot, commits, p.results);
  }

  /** One iteration of the sync loop, in closed form. */
  lemma SyncFromStep(snapshot: map<ChecklistKey, Checklist>, commits: seq<CommitInfo>, p: Progress, failingPuts: set<nat>)
    requires commits != []
    ensures SyncFrom(snapshot, commits, p, failingPuts)
         == if !IsNew(snapshot, commits[0]) then SyncFrom(snapshot, commits[1..], SkippedStep(p, commits[0]), failingPuts)
            else match FirstFailure(failingPuts, p.staged.puts, p.staged.puts + PutsPerNewCommit)
              case Some(n) => Err(PutFailed(n))
              case None => SyncFrom(snapshot, commits[1..], SyncedStep(p, commits[0]), failingPuts)
  {
    SyncCommitClosedForm(snapshot, p, commits[0], failingPuts);
  }

  /** What a sync from `p` returns: the first failing put among the puts its
      new commits need, or else the reference writes and results. */
  function ClosedForm(snapshot: map<ChecklistKey, Checklist>, commits: seq<CommitInfo>, p: Progress, failingPuts: set<nat>): Result<Progress> {
    match FirstFailure(failingPuts, p.staged.puts, p.staged.puts + PutsPerNewCommit * NewCount(snapshot, commits))
    case Some(n) => Err(PutFailed(n))
    case None => Ok(Final(snapshot, commits, p))
  }

  lemma ClosedFormSkipped(snapshot: map<ChecklistKey, Checklist>, commits: seq<CommitInfo>, p: Progress, failingPuts: set<nat>)
    requires commits != [] && !IsNew(snapshot, commits[0])
    ensures ClosedForm(snapshot, commits, p, failingPuts) == ClosedForm(snapshot, commits[1..], SkippedStep(p, commits[0]), failingPuts)
  {
    FinalAfterSkipped(snapshot, commits, p);
  }

  lemma ClosedFormFailed(snapshot: map<ChecklistKey, Checklist>, commits: seq<CommitInfo>, p: Progress, failingPuts: set<nat>)
    requires commits != [] && IsNew(snapshot, commits[0])
    requires FirstFailure(failingPuts, p.staged.puts, p.staged.puts + PutsPerNewCommit).Some?
    ensures ClosedForm(snapshot, commits, p, failingPuts)
         == Err(PutFailed(FirstFailure(failingPuts, p.staged.puts, p.staged.puts + PutsPerNewCommit).value))
  {
    var lo, n := p.staged.puts, NewCount(snapshot, commits[1..]);
    assert PutsPerNewCommit * NewCount(snapshot, commits) == PutsPerNewCommit + PutsPerNewCommit * n;
    FirstFailureSplit(failingPuts, lo, lo + PutsPerNewCommit, lo + PutsPerNewCommit + PutsPerNewCommit * n);
  }

  lemma ClosedFormSynced(snapshot: map<ChecklistKey, Checklist>, commits: seq<CommitInfo>, p: Progress, failingPuts: set<nat>)
    requires commits != [] && IsNew(snapshot, commits[0])
    requires FirstFailure(failingPuts, p.staged.puts, p.staged.puts + PutsPerNewCommit).None?
    ensures ClosedForm(snapshot, commits, p, failingPuts) == ClosedForm(snapshot, commits[1..], SyncedStep(p, commits[0]), failingPuts)
  {
    var lo, n := p.staged.puts, NewCount(snapshot, commits[1..]);
    assert PutsPerNewCommit * NewCount(snapshot, commits) == PutsPerNewCommit + PutsPerNewCommit * n;
    FirstFailureSplit(failingPuts, lo, lo + PutsPerNewCommit, lo + PutsPerNewCommit + PutsPerNewCommit * n);
    FinalAfterSynced(snapshot, commits, p);
  }

  /** The transaction from any intermediate state fails exactly at the first
      failing put among the puts its new commits need, and otherwise stages
      the reference writes and results. */
  lemma {:induction false} SyncFromClosedForm(snapshot: map<ChecklistKey, Checklist>, commits: seq<CommitInfo>, p: Progress, failingPuts: set<nat>)
    ensures SyncFrom(snapshot, commits, p, failingPuts) == ClosedForm(snapshot, commits, p, failingPuts)
    decreases |commits|
  {
    if commits == [] {
      assert p.staged.tasks + [] == p.staged.tasks && p.results + [] == p.results;
    } else {
      var c, rest := commits[0], commits[1..];
      var lo := p.staged.puts;
      SyncFromStep(snapshot, commits, p, failingPuts);
      if !IsNew(snapshot, c) {
        SyncFromClosedForm(snapshot, rest, SkippedStep(p, c), failingPuts);
        ClosedFormSkipped(snapshot, commits, p, failingPuts);
      } else if FirstFailure(failingPuts, lo, lo + PutsPerNewCommit).Some? {
        ClosedFormFailed(snapshot, commits, p, failingPuts);
      } else {
        SyncFromClosedForm(snapshot, rest, SyncedStep(p, c), failingPuts);
        ClosedFormSynced(snapshot, commits, p, failingPuts);
      }
    }
  }

  /** The closed form of `SyncFromClosedForm`, for a whole transaction. */
  lemma SyncClosedForm(checklists: map<ChecklistKey, Checklist>, tasks: seq<Task>, commits: seq<CommitInfo>, nowMillis: int, failingPuts: set<nat>)
    ensures Sync(checklists, tasks, commits, nowMillis, failingPuts)
         == match FirstFailure(failingPuts, 0, PutsPerNewCommit * NewCount(checklists, commits))
            case Some(n) => Err(PutFailed(n))
            case None => Ok(Final(checklists, commits, Progress(Staged(checklists, tasks, 0), nowMillis, [])))
  {
    SyncFromClosedForm(checklists, commits, Progress(Staged(checklists, tasks, 0), nowMillis, []), failingPuts);
  }

  // ---------------------------------------------------------------------
  // Facts about the reference definitions
  // ---------------------------------------------------------------------

  lemma {:induction false} NewCountAppend(snapshot: map<ChecklistKey, Checklist>, a: seq<CommitInfo>, b: seq<CommitInfo>)
    ensures NewCount(snapshot, a + b) == NewCount(snapshot, a) + NewCount(snapshot, b)
    decreases |a|
  {
    if a == [] {
      assert a + b == b;
    } else {
      assert (a + b)[1..] == a[1..] + b;
      NewCountAppend(snapshot, a[1..], b);
    }
  }

  /** A key is new exactly when some new commit of the batch has it. */
  lemma {:induction false} NewKeysMember(snapshot: map<ChecklistKey, Checklist>, commits: seq<CommitInfo>, key: ChecklistKey)
    ensures key in NewKeys(snapshot, commits)
        <==> exists i :: 0 <= i < |commits| && IsNew(snapshot, commits[i]) && ChecklistKeyOf(commits[i]) == key
    decreases |commits|
  {
    if commits != [] {
      NewKeysMember(snapshot, commits[1..], key);
      if key in NewKeys(snapshot, commits[1..]) {
        var i :| 0 <= i < |commits[1..]| && IsNew(snapshot, commits[1..][i]) && ChecklistKeyOf(commits[1..][i]) == key;
        assert commits[i + 1] == commits[1..][i];
      }
      if exists i :: 0 <= i < |commits| && IsNew(snapshot, commits[i]) && ChecklistKeyOf(commits[i]) == key {
        var i :| 0 <= i < |commits| && IsNew(snapshot, commits[i]) && ChecklistKeyOf(commits[i]) == key;
        if i > 0 {
          assert commits[1..][i - 1] == commits[i];
        }
      }
    }
  }

  lemma {:induction false} NewKeysAreNew(snapshot: map<ChecklistKey, Checklist>, commits: seq<CommitInfo>)
    ensures forall k :: k in NewKeys(snapshot, commits) ==> k !in snapshot
    decreases |commits|
  {
    if commits != [] {
      NewKeysAreNew(snapshot, commits[1..]);
    }
  }

  lemma {:induction false} StagedChecklistsKeys(staged: map<ChecklistKey, Checklist>, snapshot: map<ChecklistKey, Checklist>, commits: seq<CommitInfo>, nowMillis: int)
    ensures StagedChecklists(staged, snapshot, commits, nowMillis).Keys == staged.Keys + NewKeys(snapshot, commits)
    decreases |commits|
  {
    if commits != [] {
      var c := commits[0];
      if IsNew(snapshot, c) {
        StagedChecklistsKeys(staged[ChecklistKeyOf(c) := Checklist(FlutterRepositoryPath, c, nowMillis)], snapshot, commits[1..], nowMillis - 1);
      } else {
        StagedChecklistsKeys(staged, snapshot, commits[1..], nowMillis);
      }
    }
  }

  /** A key that no new commit has keeps whatever `staged` held for it. */
  lemma {:induction false} StagedChecklistsElsewhere(staged: map<ChecklistKey, Checklist>, snapshot: map<ChecklistKey, Checklist>, commits: seq<CommitInfo>, nowMillis: int, key: ChecklistKey)
    requires key !in NewKeys(snapshot, commits)
    ensures key in StagedChecklists(staged, snapshot, commits, nowMillis) <==> key in staged
    ensures key in staged ==> StagedChecklists(staged, snapshot, commits, nowMillis)[key] == staged[key]
    decreases |commits|
  {
    if commits != [] {
      var c := commits[0];
      if IsNew(snapshot, c) {
        StagedChecklistsElsewhere(staged[ChecklistKeyOf(c) := Checklist(FlutterRepositoryPath, c, nowMillis)], snapshot, commits[1..], nowMillis - 1, key);
      } else {
        StagedChecklistsElsewhere(staged, snapshot, commits[1..], nowMillis, key);
      }
    }
  }

  /** The last new commit with a given SHA leaves its checklist, stamped
      with the clock reading less the number of new commits before it. */
  lemma {:induction false} StagedChecklistsLast(staged: map<ChecklistKey, Checklist>, snapshot: map<ChecklistKey, Checklist>, commits: seq<CommitInfo>, nowMillis: int, i: nat)
    requires i < |commits| && IsNew(snapshot, commits[i]) && LastOccurrence(commits, i)
    ensures ChecklistKeyOf(commits[i]) in StagedChecklists(staged, snapshot, commits, nowMillis)
    ensures StagedChecklists(staged, snapshot, commits, nowMillis)[ChecklistKeyOf(commits[i])]
         == Checklist(FlutterRepositoryPath, commits[i], nowMillis - NewCount(snapshot, commits[..i]))
    decreases |commits|
  {
    var c, rest := commits[0], commits[1..];
    var next := if IsNew(snapshot, c) then staged[ChecklistKeyOf(c) := Checklist(FlutterRepositoryPath, c, nowMillis)] else staged;
    var nextMillis := if IsNew(snapshot, c) then nowMillis - 1 else nowMillis;
    assert StagedChecklists(staged, snapshot, commits, nowMillis) == StagedChecklists(next, snapshot, rest, nextMillis);
    if i == 0 {
      var key := ChecklistKeyOf(c);
      if key in NewKeys(snapshot, rest) {
        NewKeysMember(snapshot, rest, key);
        assert false;
      }
      StagedChecklistsElsewhere(next, snapshot, rest, nextMillis, key);
      assert commits[..0] == [];
    } else {
      assert LastOccurrence(rest, i - 1) by {
        forall j | i - 1 < j < |rest| ensures rest[j].sha != rest[i - 1].sha {
          assert rest[j] == commits[j + 1];
        }
      }
      StagedChecklistsLast(next, snapshot, rest, nextMillis, i - 1);
      assert commits[..i][1..] == rest[..i - 1];
    }
  }

  lemma {:induction false} TasksOfAppend(a: seq<Task>, b: seq<Task>, key: ChecklistKey)
    ensures TasksOf(a + b, key) == TasksOf(a, key) + TasksOf(b, key)
    decreases |a|
  {
    if a == [] {
      assert a + b == b;
    } else {
      assert (a + b)[1..] == a[1..] + b;
      TasksOfAppend(a[1..], b, key);
    }
  }

  lemma {:induction false} TasksOfAllBound(tasks: seq<Task>, key: ChecklistKey)
    requires forall i :: 0 <= i < |tasks| ==> tasks[i].checklistKey == key
    ensures TasksOf(tasks, key) == tasks
    decreases |tasks|
  {
    if tasks != [] {
      TasksOfAllBound(tasks[1..], key);
    }
  }

  lemma {:induction false} TasksOfNoneBound(tasks: seq<Task>, key: ChecklistKey)
    requires forall i :: 0 <= i < |tasks| ==> tasks[i].checklistKey != key
    ensures TasksOf(tasks, key) == []
    decreases |tasks|
  {
    if tasks != [] {
      TasksOfNoneBound(tasks[1..], key);
    }
  }

  /** Of the template bound to `bound`, the tasks bound to `key`: all of
      them when the keys agree, none otherwise. */
  lemma TasksOfTemplate(bound: ChecklistKey, key: ChecklistKey)
    ensures TasksOf(CreateTaskList(bound), key) == if bound == key then CreateTaskList(key) else []
  {
    if bound == key {
      TasksOfAllBound(CreateTaskList(bound), key);
    } else {
      TasksOfNoneBound(CreateTaskList(bound), key);
    }
  }

  /** Of the tasks one commit adds, those bound to `key`. */
  lemma NewTasksOfKeyHead(snapshot: map<ChecklistKey, Checklist>, c: CommitInfo, key: ChecklistKey)
    ensures TasksOf(if IsNew(snapshot, c) then CreateTaskList(ChecklistKeyOf(c)) else [], key)
         == if IsNew(snapshot, c) && ChecklistKeyOf(c) == key then CreateTaskList(key) else []
  {
    if IsNew(snapshot, c) {
      TasksOfTemplate(ChecklistKeyOf(c), key);
    }
  }

  /** Every new commit contributes one whole template to the tasks of its
      key; a SHA that occurs twice in the batch gets the template twice. */
  lemma {:induction false} NewTasksOfKey(snapshot: map<ChecklistKey, Checklist>, commits: seq<CommitInfo>, key: ChecklistKey)
    ensures TasksOf(NewTasks(snapshot, commits), key) == Repeat(CreateTaskList(key), NewOccurrences(snapshot, commits, key))
    decreases |commits|
  {
    if commits != [] {
      var c, rest := commits[0], commits[1..];
      var first := if IsNew(snapshot, c) then CreateTaskList(ChecklistKeyOf(c)) else [];
      var later := TasksOf(NewTasks(snapshot, rest), key);
      assert NewTasks(snapshot, commits) == first + NewTasks(snapshot, rest);
      TasksOfAppend(first, NewTasks(snapshot, rest), key);
      NewTasksOfKey(snapshot, rest, key);
      NewTasksOfKeyHead(snapshot, c, key);
      var m := NewOccurrences(snapshot, rest, key);
      if IsNew(snapshot, c) && ChecklistKeyOf(c) == key {
        assert NewOccurrences(snapshot, commits, key) == m + 1;
        assert Repeat(CreateTaskList(key), m + 1) == CreateTaskList(key) + Repeat(CreateTaskList(key), m);
      } else {
        assert NewOccurrences(snapshot, commits, key) == m;
        assert [] + later == later;
      }
    }
  }

  lemma {:induction false} NewTasksBound(snapshot: map<ChecklistKey, Checklist>, commits: seq<CommitInfo>)
    ensures |NewTasks(snapshot, commits)| == TemplateSize * NewCount(snapshot, commits)
    ensures forall i :: 0 <= i < |NewTasks(snapshot, commits)| ==>
      NewTasks(snapshot, commits)[i].checklistKey in NewKeys(snapshot, commits)
    decreases |commits|
  {
    if commits != [] {
      var c, rest := commits[0], commits[1..];
      NewTasksBound(snapshot, rest);
      var first := if IsNew(snapshot, c) then CreateTaskList(ChecklistKeyOf(c)) else [];
      var all := NewTasks(snapshot, commits);
      assert all == first + NewTasks(snapshot, rest);
      forall i | 0 <= i < |all| ensures all[i].checklistKey in NewKeys(snapshot, commits) {
        if i >= |first| {
          assert all[i] == NewTasks(snapshot, rest)[i - |first|];
        }
      }
    }
  }

  /** With distinct SHAs, a new key comes from exactly one commit. */
  lemma {:induction false} NewOccurrencesDistinct(snapshot: map<ChecklistKey, Checklist>, commits: seq<CommitInfo>, key: ChecklistKey)
    requires DistinctShas(commits)
    ensures NewOccurrences(snapshot, commits, key) == if key in NewKeys(snapshot, commits) then 1 else 0
    decreases |commits|
  {
    if commits != [] {
      var c, rest := commits[0], commits[1..];
      assert DistinctShas(rest) by {
        forall i, j | 0 <= i < j < |rest| ensures rest[i].sha != rest[j].sha {
          assert rest[i] == commits[i + 1] && rest[j] == commits[j + 1];
        }
      }
      NewOccurrencesDistinct(snapshot, rest, key);
      NewKeysMember(snapshot, rest, key);
    }
  }

  /** Commits that all had checklists already change nothing. */
  lemma {:induction false} NothingNew(snapshot: map<ChecklistKey, Checklist>, commits: seq<CommitInfo>, staged: map<ChecklistKey, Checklist>, nowMillis: int)
    requires forall i :: 0 <= i < |commits| ==> !IsNew(snapshot, commits[i])
    ensures NewCount(snapshot, commits) == 0
    ensures NewTasks(snapshot, commits) == []
    ensures StagedChecklists(staged, snapshot, commits, nowMillis) == staged
    decreases |commits|
  {
    if commits != [] {
      assert forall i :: 0 <= i < |commits[1..]| ==> commits[1..][i] == commits[i + 1];
      NothingNew(snapshot, commits[1..], staged, nowMillis);
    }
  }

  // ---------------------------------------------------------------------
  // Properties of the sync
  // ---------------------------------------------------------------------

  /** All or nothing: the sync fails exactly when one of the puts its new
      commits need fails, and then it reports the first such put. (That a
      failed sync leaves the store untouched is the contract of
      `Commands.RefreshGithubCommits`.) */
  lemma SyncFailsOnlyOnFailedPut(checklists: map<ChecklistKey, Checklist>, tasks: seq<Task>, commits: seq<CommitInfo>, nowMillis: int, failingPuts: set<nat>)
    ensures Sync(checklists, tasks, commits, nowMillis, failingPuts).Ok?
        <==> forall n: nat :: n < PutsPerNewCommit * NewCount(checklists, commits) ==> n !in failingPuts
    ensures Sync(checklists, tasks, commits, nowMillis, failingPuts).Err? ==>
      var n := Sync(checklists, tasks, commits, nowMillis, failingPuts).error.put;
      && n < PutsPerNewCommit * NewCount(checklists, commits)
      && n in failingPuts
      && forall m: nat :: m < n ==> m !in failingPuts
  {
    SyncClosedForm(checklists, tasks, commits, nowMillis, failingPuts);
  }

  /** A successful sync reports one result per commit, in feed order. */
  lemma ResultAlignment(checklists: map<ChecklistKey, Checklist>, tasks: seq<Task>, commits: seq<CommitInfo>, nowMillis: int, failingPuts: set<nat>)
    requires Sync(checklists, tasks, commits, nowMillis, failingPuts).Ok?
    ensures var results := Sync(checklists, tasks, commits, nowMillis, failingPuts).value.results;
      && |results| == |commits|
      && forall i :: 0 <= i < |commits| ==> results[i].commit == commits[i].sha
  {
    SyncClosedForm(checklists, tasks, commits, nowMillis, failingPuts);
  }

  /** Every outcome is `Synced` or `Skipped`, and it is `Synced` exactly when
      the store held no checklist for the commit when the sync began. */
  lemma OutcomeRule(checklists: map<ChecklistKey, Checklist>, tasks: seq<Task>, commits: seq<CommitInfo>, nowMillis: int, failingPuts: set<nat>)
    requires Sync(checklists, tasks, commits, nowMillis, failingPuts).Ok?
    ensures var results := Sync(checklists, tasks, commits, nowMillis, failingPuts).value.results;
      forall i :: 0 <= i < |commits| ==>
        && i < |results|
        && (results[i].outcome == Synced || results[i].outcome == Skipped)
        && (results[i].outcome == Synced <==> NewChecklistKey(FlutterRepositoryPath, commits[i].sha) !in checklists)
  {
    SyncClosedForm(checklists, tasks, commits, nowMillis, failingPuts);
  }

  /** The k-th new commit (counting from 0) is stamped `nowMillis - k`;
      commits that are skipped use no timestamp. Where a SHA repeats in the
      batch, its last occurrence's checklist is the one that stays. */
  lemma TimestampAssignment(checklists: map<ChecklistKey, Checklist>, tasks: seq<Task>, commits: seq<CommitInfo>, nowMillis: int, failingPuts: set<nat>)
    requires Sync(checklists, tasks, commits, nowMillis, failingPuts).Ok?
    ensures var staged := Sync(checklists, tasks, commits, nowMillis, failingPuts).value.staged.checklists;
      forall i :: 0 <= i < |commits| && IsNew(checklists, commits[i]) && LastOccurrence(commits, i) ==>
        && ChecklistKeyOf(commits[i]) in staged
        && staged[ChecklistKeyOf(commits[i])]
           == Checklist(FlutterRepositoryPath, commits[i], nowMillis - NewCount(checklists, commits[..i]))
  {
    SyncClosedForm(checklists, tasks, commits, nowMillis, failingPuts);
    forall i | 0 <= i < |commits| && IsNew(checklists, commits[i]) && LastOccurrence(commits, i)
      ensures var staged := StagedChecklists(checklists, checklists, commits, nowMillis);
        && ChecklistKeyOf(commits[i]) in staged
        && staged[ChecklistKeyOf(commits[i])]
           == Checklist(FlutterRepositoryPath, commits[i], nowMillis - NewCount(checklists, commits[..i]))
    {
      StagedChecklistsLast(checklists, checklists, commits, nowMillis, i);
    }
  }

  /** The new checklists' timestamps strictly decrease in feed order, so the
      newest commit gets the largest. Where a SHA repeats in the batch, the
      statement is about its last occurrence, whose checklist is the one that
      stays; with distinct SHAs every commit is its own last occurrence. */
  lemma TimestampsStrictlyDecreasing(checklists: map<ChecklistKey, Checklist>, tasks: seq<Task>, commits: seq<CommitInfo>, nowMillis: int, failingPuts: set<nat>)
    requires Sync(checklists, tasks, commits, nowMillis, failingPuts).Ok?
    ensures var staged := Sync(checklists, tasks, commits, nowMillis, failingPuts).value.staged.checklists;
      forall i, j :: 0 <= i < j < |commits|
                     && IsNew(checklists, commits[i]) && LastOccurrence(commits, i)
                     && IsNew(checklists, commits[j]) && LastOccurrence(commits, j) ==>
        && ChecklistKeyOf(commits[i]) in staged
        && ChecklistKeyOf(commits[j]) in staged
        && staged[ChecklistKeyOf(commits[i])].createTimestamp > staged[ChecklistKeyOf(commits[j])].createTimestamp
  {
    TimestampAssignment(checklists, tasks, commits, nowMillis, failingPuts);
    forall i, j | 0 <= i < j < |commits| && IsNew(checklists, commits[i])
      ensures NewCount(checklists, commits[..i]) < NewCount(checklists, commits[..j])
    {
      NewCountGrows(checklists, commits, i, j);
    }
  }

  /** A new commit at `i` counts among the new commits before any `j > i`. */
  lemma NewCountGrows(snapshot: map<ChecklistKey, Checklist>, commits: seq<CommitInfo>, i: nat, j: nat)
    requires i < j <= |commits| && IsNew(snapshot, commits[i])
    ensures NewCount(snapshot, commits[..i]) < NewCount(snapshot, commits[..j])
  {
    var tail := [commits[i]] + commits[i + 1..j];
    assert commits[..j] == commits[..i] + tail;
    NewCountAppend(snapshot, commits[..i], tail);
    assert tail[1..] == commits[i + 1..j];
  }

  /** A successful sync leaves every checklist that existed untouched, adds
      one checklist per new key and nothing else, and appends tasks only:
      the template of each new commit, none of them bound to a checklist
      that existed before. */
  lemma SkippedCommitsWriteNothing(checklists: map<ChecklistKey, Checklist>, tasks: seq<Task>, commits: seq<CommitInfo>, nowMillis: int, failingPuts: set<nat>)
    requires Sync(checklists, tasks, commits, nowMillis, failingPuts).Ok?
    ensures var staged := Sync(checklists, tasks, commits, nowMillis, failingPuts).value.staged;
      && staged.checklists.Keys == checklists.Keys + NewKeys(checklists, commits)
      && (forall k :: k in checklists ==> k in staged.checklists && staged.checklists[k] == checklists[k])
      && staged.tasks == tasks + NewTasks(checklists, commits)
      && (forall i :: |tasks| <= i < |staged.tasks| ==> staged.tasks[i].checklistKey !in checklists)
      && (forall k :: k in checklists ==> TasksOf(staged.tasks, k) == TasksOf(tasks, k))
  {
    SyncClosedForm(checklists, tasks, commits, nowMillis, failingPuts);
    StagedChecklistsKeys(checklists, checklists, commits, nowMillis);
    NewKeysAreNew(checklists, commits);
    forall k | k in checklists
      ensures k in StagedChecklists(checklists, checklists, commits, nowMillis)
      ensures StagedChecklists(checklists, checklists, commits, nowMillis)[k] == checklists[k]
    {
      StagedChecklistsElsewhere(checklists, checklists, commits, nowMillis, k);
    }
    NewTasksBound(checklists, commits);
    var all := tasks + NewTasks(checklists, commits);
    forall i | |tasks| <= i < |all| ensures all[i].checklistKey !in checklists {
      assert all[i] == NewTasks(checklists, commits)[i - |tasks|];
    }
    forall k | k in checklists ensures TasksOf(all, k) == TasksOf(tasks, k) {
      TasksOfAppend(tasks, NewTasks(checklists, commits), k);
      TasksOfNoneBound(NewTasks(checklists, commits), k);
      assert TasksOf(tasks, k) + [] == TasksOf(tasks, k);
    }
  }

  /** With distinct SHAs, each new checklist gets exactly the template's
      tasks, bound to it, and the sync adds 13 tasks per new commit. */
  lemma FullTaskSet(checklists: map<ChecklistKey, Checklist>, tasks: seq<Task>, commits: seq<CommitInfo>, nowMillis: int, failingPuts: set<nat>)
    requires DistinctShas(commits)
    requires Sync(checklists, tasks, commits, nowMillis, failingPuts).Ok?
    ensures var staged := Sync(checklists, tasks, commits, nowMillis, failingPuts).value.staged;
      && |staged.tasks| == |tasks| + TemplateSize * NewCount(checklists, commits)
      && forall i :: 0 <= i < |commits| && IsNew(checklists, commits[i]) ==>
           TasksOf(staged.tasks[|tasks|..], ChecklistKeyOf(commits[i])) == CreateTaskList(ChecklistKeyOf(commits[i]))
  {
    SyncClosedForm(checklists, tasks, commits, nowMillis, failingPuts);
    NewTasksBound(checklists, commits);
    var added := NewTasks(checklists, commits);
    assert (tasks + added)[|tasks|..] == added;
    forall i | 0 <= i < |commits| && IsNew(checklists, commits[i])
      ensures TasksOf(added, ChecklistKeyOf(commits[i])) == CreateTaskList(ChecklistKeyOf(commits[i]))
    {
      var key := ChecklistKeyOf(commits[i]);
      NewTasksOfKey(checklists, commits, key);
      NewKeysMember(checklists, commits, key);
      NewOccurrencesDistinct(checklists, commits, key);
      assert Repeat(CreateTaskList(key), 1) == CreateTaskList(key) + [];
    }
  }

  /** Rerunning a successful sync with the same commits skips every one of
      them and stages no write, whatever the clock and the store's failures. */
  lemma Idempotence(checklists: map<ChecklistKey, Checklist>, tasks: seq<Task>, commits: seq<CommitInfo>, nowMillis: int, failingPuts: set<nat>,
                    laterMillis: int, laterFailingPuts: set<nat>)
    requires Sync(checklists, tasks, commits, nowMillis, failingPuts).Ok?
    ensures var first := Sync(checklists, tasks, commits, nowMillis, failingPuts).value.staged;
      var again := Sync(first.checklists, first.tasks, commits, laterMillis, laterFailingPuts);
      && again.Ok?
      && again.value.staged == Staged(first.checklists, first.tasks, 0)
      && |again.value.results| == |commits|
      && forall i :: 0 <= i < |commits| ==> again.value.results[i] == CommitSyncResult(commits[i].sha, Skipped)
  {
    var first := Sync(checklists, tasks, commits, nowMillis, failingPuts).value.staged;
    SyncClosedForm(checklists, tasks, commits, nowMillis, failingPuts);
    StagedChecklistsKeys(checklists, checklists, commits, nowMillis);
    forall i | 0 <= i < |commits| ensures !IsNew(first.checklists, commits[i]) {
      NewKeysMember(checklists, commits, ChecklistKeyOf(commits[i]));
    }
    NothingNew(first.checklists, commits, first.checklists, laterMillis);
    SyncClosedForm(first.checklists, first.tasks, commits, laterMillis, laterFailingPuts);
    assert first.tasks + [] == first.tasks;
  }

  /** The checklist half of `WellFormed` for the reference writes: every
      checklist sits under its own key. */
  lemma StagedKeysMatch(checklists: map<ChecklistKey, Checklist>, commits: seq<CommitInfo>, nowMillis: int)
    requires UnderOwnKeys(checklists)
    ensures UnderOwnKeys(StagedChecklists(checklists, checklists, commits, nowMillis))
  {
    var cl := StagedChecklists(checklists, checklists, commits, nowMillis);
    StagedChecklistsKeys(checklists, checklists, commits, nowMillis);
    forall k | k in cl ensures k == NewChecklistKey(cl[k].flutterRepositoryPath, cl[k].commit.sha) {
      if k in NewKeys(checklists, commits) {
        NewKeysMember(checklists, commits, k);
        var i :| 0 <= i < |commits| && IsNew(checklists, commits[i]) && ChecklistKeyOf(commits[i]) == k;
        var last := LastWithSha(commits, i);
        StagedChecklistsLast(checklists, checklists, commits, nowMillis, last);
      } else {
        StagedChecklistsElsewhere(checklists, checklists, commits, nowMillis, k);
      }
    }
  }

  /** The index of the last commit with the SHA of commit `i`. */
  function LastWithSha(commits: seq<CommitInfo>, i: nat): (last: nat)
    requires i < |commits|
    ensures i <= last < |commits|
    ensures commits[last].sha == commits[i].sha && LastOccurrence(commits, last)
    decreases |commits| - i
  {
    if exists j :: i < j < |commits| && commits[j].sha == commits[i].sha then
      var j :| i < j < |commits| && commits[j].sha == commits[i].sha;
      LastWithSha(commits, j)
    else i
  }

  /** The task half of `WellFormed` for the reference writes. */
  lemma StagedTasksMatch(checklists: map<ChecklistKey, Checklist>, tasks: seq<Task>, commits: seq<CommitInfo>, nowMillis: int)
    requires TasksComplete(checklists, tasks)
    requires DistinctShas(commits)
    ensures TasksComplete(StagedChecklists(checklists, checklists, commits, nowMillis), tasks + NewTasks(checklists, commits))
  {
    var cl := StagedChecklists(checklists, checklists, commits, nowMillis);
    var added := NewTasks(checklists, commits);
    var ts := tasks + added;
    StagedChecklistsKeys(checklists, checklists, commits, nowMillis);
    NewKeysAreNew(checklists, commits);
    NewTasksBound(checklists, commits);
    forall k | k in cl ensures TasksOf(ts, k) == CreateTaskList(k) {
      TasksOfAppend(tasks, added, k);
      NewTasksOfKey(checklists, commits, k);
      NewOccurrencesDistinct(checklists, commits, k);
      if k in checklists {
        assert TasksOf(ts, k) == CreateTaskList(k) + [];
      } else {
        TasksOfNoneBound(tasks, k);
        assert TasksOf(ts, k) == [] + (CreateTaskList(k) + []);
      }
    }
    forall i | 0 <= i < |ts| ensures ts[i].checklistKey in cl {
      if i >= |tasks| {
        assert ts[i] == added[i - |tasks|];
      }
    }
  }

  /** A successful sync keeps the store well formed when the batch has
      distinct SHAs: one checklist per commit, no task without its
      checklist, and every checklist with exactly the template's tasks. */
  lemma SyncPreservesWellFormed(checklists: map<ChecklistKey, Checklist>, tasks: seq<Task>, commits: seq<CommitInfo>, nowMillis: int, failingPuts: set<nat>)
    requires WellFormed(checklists, tasks)
    requires DistinctShas(commits)
    requires Sync(checklists, tasks, commits, nowMillis, failingPuts).Ok?
    ensures var staged := Sync(checklists, tasks, commits, nowMillis, failingPuts).value.staged;
      WellFormed(staged.checklists, staged.tasks)
  {
    SyncClosedForm(checklists, tasks, commits, nowMillis, failingPuts);
    var staged := Sync(checklists, tasks, commits, nowMillis, failingPuts).value.staged;
    assert staged.checklists == StagedChecklists(checklists, checklists, commits, nowMillis);
    assert staged.tasks == tasks + NewTasks(checklists, commits);
    StagedKeysMatch(checklists, commits, nowMillis);
    StagedTasksMatch(checklists, tasks, commits, nowMillis);
  }
}
