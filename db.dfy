/**
 * The records of the scheduling store as the commit sync reads and writes
 * them: commit records from the feed, checklists, tasks and their keys, and
 * the durable store handle. Only the shape of these records is modelled; how
 * the store keeps and indexes them is not.
 */
module Db {

  datatype Option<T> = None | Some(value: T)

  /** An error returned by the store. A put is identified by its position,
      counted from 0, among all the puts of one transaction. */
  datatype StoreError = PutFailed(put: nat)

  /** The outcome of a store operation: a value, or the store's error. */
  datatype Result<T> = Ok(value: T) | Err(error: StoreError)

  /** A commit record as decoded from the commit feed. Only `sha` is ever
      inspected; `details` stands for the rest of the record (author,
      message, URLs), which is copied into the checklist unread. */
  datatype CommitInfo = CommitInfo(sha: string, details: string)

  /** The datastore key of a checklist: one per repository path and SHA. */
  datatype ChecklistKey = ChecklistKey(repositoryPath: string, sha: string)

  function NewChecklistKey(repositoryPath: string, sha: string): ChecklistKey {
    ChecklistKey(repositoryPath, sha)
  }

  /** The durable record of one synchronized commit. `createTimestamp` is the
      ordering key, in milliseconds since the epoch. */
  datatype Checklist = Checklist(flutterRepositoryPath: string, commit: CommitInfo, createTimestamp: int)

  /** One unit of work for an agent, bound to its checklist by `checklistKey`. */
  datatype Task = Task(
    checklistKey: ChecklistKey,
    stageName: string,
    name: string,
    requiredCapabilities: seq<string>,
    status: string,
    startTimestamp: int,
    endTimestamp: int)

  /** The handle on the durable store: the committed checklists by key, and
      the committed tasks in the order they were put. */
  class Cocoon {
    var checklists: map<ChecklistKey, Checklist>
    var tasks: seq<Task>
  }
}
