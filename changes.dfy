/** The change records shared by the per-repository log and the whole-tree
    changelog (changelog-generator/src/changelog.rs and repo_log.rs). */
module Changes {
  import opened Wrappers

  datatype ChangeKind = Merge | Normal

  /** One commit of a repository's history. `datetime` is the commit date in
      seconds since the Unix epoch. */
  datatype Change = Change(
    kind: ChangeKind,
    repo: string,
    title: string,
    description: string,
    authorName: string,
    authorEmail: string,
    datetime: nat,
    changeId: Option<string>,
    commit: string)

  datatype RepoChangeLog = RepoChangeLog(logs: seq<Change>)
}
