/** The structural diff of two manifest snapshots
    (changelog-generator/src/changelog.rs): which repositories were added,
    removed or moved to another commit, with a per-repository log for the
    moved ones and a window of recent history for the added ones. */
module Changelog {
  import opened Wrappers
  import opened Text
  import opened Process
  import opened Changes
  import KeyOrder
  import Snap = Snapshot
  import RepoLog

  datatype NewRepoStatus = NewRepoStatus(upstream: string, recentChanges: seq<Change>, commit: Snap.CommitHash)

  datatype RemovedRepoStatus = RemovedRepoStatus(lastSeenCommit: Snap.CommitHash)

  /** `log` is meant to hold all changes ordered by date; `changes` holds the
      log of each repository that moved. */
  datatype ChangeLog = ChangeLog(
    addedRepos: map<string, NewRepoStatus>,
    removedRepos: map<string, RemovedRepoStatus>,
    log: seq<Change>,
    changes: map<string, RepoChangeLog>)

  /** `ChangeLogError`, plus the two panics `generate` can hit: indexing a
      snapshot's map with a repository it lacks, and unwrapping a start
      commit that is not a commit hash. */
  datatype ChangeLogError =
    | CommandExecution
    | CommandFailure(operation: string, message: string)
    | NoHistory(repo: string)
    | SingleRepo(repo: string, source: RepoLog.RepoChangelogError)
    | IndexPanic(repo: string)
    | UnwrapPanic(value: string)

  /** The results of the three queries `generate_repo_changelog` makes. */
  datatype History = History(merged: Run, firstParent: Run, show: string -> Run)

  /** The results of every command `generate` runs in the tree. */
  datatype Host = Host(
    /** `repo info` at the top of the tree, its status ignored. */
    repoInfo: Run,
    /** The queries of `generate_repo_changelog` for a repository and its
        source and target commits. */
    history: (string, string, string) -> History,
    /** `git rev-list --first-parent --reverse --max-count=<n> <commit>`. */
    window: (string, nat, string) -> Run,
    /** `git rev-parse --symbolic --abbrev-ref <branch>`. */
    abbrevRef: (string, string) -> Run,
    /** `git remote get-url <remote>`. */
    remoteUrl: (string, string) -> Run)

  /** `output2string` of this file: the standard output, whatever the exit
      status. */
  function Stdout(run: Run): (r: Result<string, ChangeLogError>)
    ensures r.Ok? <==> run.Ran?
    ensures r.Ok? ==> r.value == run.output.stdout
    ensures run.Failed? ==> r == Err(CommandExecution)
  {
    match run
    case Failed => Err(CommandExecution)
    case Ran(output) => Ok(output.stdout)
  }

  // ---------------------------------------------------------------------------
  // get_sync_stamp_branch
  // ---------------------------------------------------------------------------

  const ManifestKey := "Manifest branch:"
  const HeadsPrefix := "refs/heads/"

  /** The trimmed remainder of the first line starting with
      `Manifest branch:`. */
  function ManifestBranch(lines: seq<string>): Option<string>
    decreases |lines|
  {
    if |lines| == 0 then None
    else match StripPrefix(lines[0], ManifestKey)
      case Some(rest) => Some(Trim(rest))
      case None => ManifestBranch(lines[1..])
  }

  /** The branch name with one `refs/heads/` taken off, under `m/`. */
  function StampOf(branch: string): (r: string)
    ensures StartsWith(branch, HeadsPrefix) ==> r == "m/" + branch[|HeadsPrefix|..]
    ensures !StartsWith(branch, HeadsPrefix) ==> r == "m/" + branch
  {
    match StripPrefix(branch, HeadsPrefix)
    case Some(short) => "m/" + short
    case None => "m/" + branch
  }

  const NoManifestBranch := CommandFailure("repo info", "Output does not contain manifest branch")

  /** `get_sync_stamp_branch`: the sync-stamp branch of the tree, from the
      output of `repo info`. */
  function SyncStampBranch(repoInfo: Run): Result<string, ChangeLogError> {
    var info :- Stdout(repoInfo);
    match ManifestBranch(Lines(info))
    case None => Err(NoManifestBranch)
    case Some(branch) => Ok(StampOf(branch))
  }

  /** The first `Manifest branch:` line decides; there is none exactly when
      no line starts with the key. */
  lemma {:induction false} ManifestBranchFirst(lines: seq<string>, i: nat)
    requires i < |lines| && StartsWith(lines[i], ManifestKey)
    requires forall j :: 0 <= j < i ==> !StartsWith(lines[j], ManifestKey)
    ensures ManifestBranch(lines) == Some(Trim(lines[i][|ManifestKey|..]))
    decreases i
  {
    if i > 0 {
      var tail := lines[1..];
      assert tail[i - 1] == lines[i];
      forall j | 0 <= j < i - 1
        ensures !StartsWith(tail[j], ManifestKey)
      {
        assert tail[j] == lines[j + 1];
      }
      ManifestBranchFirst(tail, i - 1);
    }
  }

  lemma {:induction false} ManifestBranchNone(lines: seq<string>)
    ensures ManifestBranch(lines).None? <==>
      forall i :: 0 <= i < |lines| ==> !StartsWith(lines[i], ManifestKey)
    decreases |lines|
  {
    if |lines| > 0 {
      ManifestBranchNone(lines[1..]);
      assert forall i :: 1 <= i < |lines| ==> lines[1..][i - 1] == lines[i];
    }
  }

  /** The stamp is `m/` and the branch, whether or not `repo info` reports
      it under `refs/heads/`; the exit status of `repo info` plays no part. */
  lemma SyncStampOf(lines: seq<string>, i: nat, pad: string, branch: string, success: bool, stderr: string)
    requires i < |lines| && forall j :: 0 <= j < i ==> !StartsWith(lines[j], ManifestKey)
    requires forall k :: 0 <= k < |pad| ==> IsRustWhitespace(pad[k])
    requires |branch| > 0 && Trimmed(branch, IsRustWhitespace) && !StartsWith(branch, HeadsPrefix)
    requires lines[i] == ManifestKey + pad + HeadsPrefix + branch || lines[i] == ManifestKey + pad + branch
    requires forall j :: 0 <= j < |lines| ==> PlainLine(lines[j])
    ensures SyncStampBranch(Ran(Output(success, Terminated(lines), stderr))) == Ok("m/" + branch)
  {
    var info := Terminated(lines);
    assert Stdout(Ran(Output(success, info, stderr))) == Ok(info);
    LinesOfTerminated(lines);
    assert Lines(info) == lines;
    StampOfLines(lines, i, pad, branch);
  }

  lemma StampOfLines(lines: seq<string>, i: nat, pad: string, branch: string)
    requires i < |lines| && forall j :: 0 <= j < i ==> !StartsWith(lines[j], ManifestKey)
    requires forall k :: 0 <= k < |pad| ==> IsRustWhitespace(pad[k])
    requires |branch| > 0 && Trimmed(branch, IsRustWhitespace) && !StartsWith(branch, HeadsPrefix)
    requires lines[i] == ManifestKey + pad + HeadsPrefix + branch || lines[i] == ManifestKey + pad + branch
    ensures ManifestBranch(lines).Some? && StampOf(ManifestBranch(lines).value) == "m/" + branch
  {
    ManifestLine(lines[i], pad, branch);
    ManifestBranchFirst(lines, i);
  }

  lemma ManifestLine(line: string, pad: string, branch: string)
    requires forall k :: 0 <= k < |pad| ==> IsRustWhitespace(pad[k])
    requires |branch| > 0 && Trimmed(branch, IsRustWhitespace) && !StartsWith(branch, HeadsPrefix)
    requires line == ManifestKey + pad + HeadsPrefix + branch || line == ManifestKey + pad + branch
    ensures StartsWith(line, ManifestKey)
    ensures StampOf(Trim(line[|ManifestKey|..])) == "m/" + branch
  {
    if line == ManifestKey + pad + HeadsPrefix + branch {
      assert line == ManifestKey + (pad + (HeadsPrefix + branch));
      StripPrefixOf(ManifestKey, pad + (HeadsPrefix + branch));
      HeadsTrimmed(branch);
      TrimPadded(pad, HeadsPrefix + branch);
      StripPrefixOf(HeadsPrefix, branch);
    } else {
      assert line == ManifestKey + (pad + branch);
      StripPrefixOf(ManifestKey, pad + branch);
      TrimPadded(pad, branch);
    }
  }

  lemma HeadsTrimmed(branch: string)
    requires |branch| > 0 && Trimmed(branch, IsRustWhitespace)
    ensures Trimmed(HeadsPrefix + branch, IsRustWhitespace)
  {
    var s := HeadsPrefix + branch;
    assert s[0] == 'r';
    assert s[|s| - 1] == branch[|branch| - 1];
  }

  /** Without a `Manifest branch:` line the tree has no sync stamp. */
  lemma NoSyncStamp(info: Output)
    requires forall i :: 0 <= i < |Lines(info.stdout)| ==> !StartsWith(Lines(info.stdout)[i], ManifestKey)
    ensures SyncStampBranch(Ran(info)) == Err(NoManifestBranch)
  {
    ManifestBranchNone(Lines(info.stdout));
  }

  // ---------------------------------------------------------------------------
  // generate_new_repo_changelog
  // ---------------------------------------------------------------------------

  /** The number of recent commits shown for a new repository. */
  const RecentWindow: nat := 10

  /** The oldest commit of the window: its first line. */
  function StartOf(repo: string, recent: string): (r: Result<string, ChangeLogError>)
    ensures r.Ok? <==> |recent| > 0
    ensures r.Err? ==> r == Err(NoHistory(repo))
    ensures r.Ok? ==> r.value == Lines(recent)[0]
  {
    var lines := Lines(recent);
    if |lines| == 0 then Err(NoHistory(repo)) else Ok(lines[0])
  }

  /** The window lists one commit per line, oldest first: the first one is
      the start. */
  lemma StartOfWindow(repo: string, oldest: string, rest: string)
    requires PlainLine(oldest)
    ensures StartOf(repo, oldest + "\n" + rest) == Ok(oldest)
  {
    LinesCons(oldest, rest);
  }

  const NoRemotePart := CommandFailure("git rev-parse --symbolic --abbrev-ref", "the output does not contain a remote part")

  /** The remote of `<remote>/<branch>`: the text before the first `/`. */
  function RemoteOf(upstreamRef: string): (r: Result<string, ChangeLogError>)
    ensures r.Ok? <==> '/' in upstreamRef
    ensures r.Err? ==> r == Err(NoRemotePart)
    ensures r.Ok? ==> '/' !in r.value && StartsWith(upstreamRef, r.value + "/")
  {
    match SplitOnce(upstreamRef, '/')
    case None => Err(NoRemotePart)
    case Some(parts) =>
      assert (parts.0 + "/") == upstreamRef[..|parts.0| + 1];
      Ok(parts.0)
  }

  lemma RemoteOfRef(remote: string, branch: string)
    requires '/' !in remote
    ensures RemoteOf(remote + "/" + branch) == Ok(remote)
  {
    SplitOnceOf(remote, '/', branch);
  }

  /** The log of a repository between two commits, its errors wrapped with
      the repository. */
  function RepoLogOf(repo: string, h: History): (r: Result<RepoChangeLog, ChangeLogError>)
    ensures r.Ok? <==> RepoLog.RepoChangelogOf(repo, h.merged, h.firstParent, h.show).Ok?
    ensures r.Ok? ==> r.value == RepoLog.RepoChangelogOf(repo, h.merged, h.firstParent, h.show).value
    ensures r.Err? ==> r == Err(SingleRepo(repo, RepoLog.RepoChangelogOf(repo, h.merged, h.firstParent, h.show).error))
  {
    match RepoLog.RepoChangelogOf(repo, h.merged, h.firstParent, h.show)
    case Ok(log) => Ok(log)
    case Err(e) => Err(SingleRepo(repo, e))
  }

  /** `generate_new_repo_changelog(max, repo, current, top, sync)`. */
  function NewRepoStatusOf(max: nat, repo: string, current: Snap.RepoStatus, host: Host, sync: string): Result<NewRepoStatus, ChangeLogError> {
    var recent :- Stdout(host.window(repo, max, current.commit));
    var start :- StartOf(repo, recent);
    var upstreamRef :- Stdout(host.abbrevRef(repo, sync));
    var remote :- RemoteOf(upstreamRef);
    var url :- Stdout(host.remoteUrl(repo, remote));
    if !Snap.IsCommitHash(start) then Err(UnwrapPanic(start))
    else
      var changelog :- RepoLogOf(repo, host.history(repo, start, current.commit));
      Ok(NewRepoStatus(Trim(url), changelog.logs, current.commit))
  }

  /** A new repository reports the trimmed URL of the remote named before
      the first `/` of its sync-stamp branch, the log from the oldest commit
      of the window to its current commit, and its current commit. */
  lemma NewRepoStatusShape(max: nat, repo: string, current: Snap.RepoStatus, host: Host, sync: string)
    requires NewRepoStatusOf(max, repo, current, host, sync).Ok?
    ensures var status := NewRepoStatusOf(max, repo, current, host, sync).value;
      var recent := host.window(repo, max, current.commit);
      var upstreamRef := host.abbrevRef(repo, sync);
      && recent.Ran? && |recent.output.stdout| > 0
      && upstreamRef.Ran? && '/' in upstreamRef.output.stdout
      && var start := Lines(recent.output.stdout)[0];
         var remote := RemoteOf(upstreamRef.output.stdout).value;
         var url := host.remoteUrl(repo, remote);
         && Snap.IsCommitHash(start)
         && url.Ran? && status.upstream == Trim(url.output.stdout)
         && status.commit == current.commit
         && var h := host.history(repo, start, current.commit);
            RepoLog.RepoChangelogOf(repo, h.merged, h.firstParent, h.show) == Ok(RepoChangeLog(status.recentChanges))
  {
  }

  lemma NewRepoStatusCommit(max: nat, repo: string, current: Snap.RepoStatus, host: Host, sync: string)
    requires NewRepoStatusOf(max, repo, current, host, sync).Ok?
    ensures NewRepoStatusOf(max, repo, current, host, sync).value.commit == current.commit
  {
  }

  /** An empty window means the repository has no history; a sync-stamp
      branch without a remote part is a command failure. Both are checked
      before any log is made. */
  lemma NewRepoStatusErrors(max: nat, repo: string, current: Snap.RepoStatus, host: Host, sync: string)
    ensures host.window(repo, max, current.commit).Ran? && host.window(repo, max, current.commit).output.stdout == "" ==>
      NewRepoStatusOf(max, repo, current, host, sync) == Err(NoHistory(repo))
    ensures host.window(repo, max, current.commit).Ran? && |host.window(repo, max, current.commit).output.stdout| > 0 &&
            host.abbrevRef(repo, sync).Ran? && '/' !in host.abbrevRef(repo, sync).output.stdout ==>
      NewRepoStatusOf(max, repo, current, host, sync) == Err(NoRemotePart)
  {
  }

  // ---------------------------------------------------------------------------
  // ChangeLog::generate
  // ---------------------------------------------------------------------------

  /** The repositories present in both key sets whose commits differ, as
      line 92 filters them. */
  function Changed(orig: Snap.Snapshot, target: Snap.Snapshot, common: set<string>): (r: set<string>)
    ensures r <= common * orig.repos.Keys * target.repos.Keys
    ensures forall x :: x in orig.repos && x in target.repos && orig.repos[x] == target.repos[x] ==> x !in r
    ensures forall x :: x in common && x in orig.repos && x in target.repos && orig.repos[x] != target.repos[x] ==> x in r
  {
    set x | x in common && x in orig.repos && x in target.repos && orig.repos[x] != target.repos[x]
  }

  /** The first loop of `generate`: the log of every common repository whose
      commit moved, in ascending order of key. */
  function ChangedFrom(orig: Snap.Snapshot, target: Snap.Snapshot, host: Host, keys: seq<string>, acc: map<string, RepoChangeLog>): Result<map<string, RepoChangeLog>, ChangeLogError>
    decreases |keys|
  {
    if |keys| == 0 then Ok(acc)
    else
      var repo := keys[0];
      if repo !in orig.repos || repo !in target.repos then Err(IndexPanic(repo))
      else if orig.repos[repo] == target.repos[repo] then ChangedFrom(orig, target, host, keys[1..], acc)
      else
        var log :- RepoLogOf(repo, host.history(repo, orig.repos[repo].commit, target.repos[repo].commit));
        ChangedFrom(orig, target, host, keys[1..], acc[repo := log])
  }

  /** The second loop: the status of every added repository. */
  function AddedFrom(target: Snap.Snapshot, host: Host, sync: string, keys: seq<string>, acc: map<string, NewRepoStatus>): Result<map<string, NewRepoStatus>, ChangeLogError>
    decreases |keys|
  {
    if |keys| == 0 then Ok(acc)
    else
      var repo := keys[0];
      if repo !in target.repos then Err(IndexPanic(repo))
      else
        var status :- NewRepoStatusOf(RecentWindow, repo, target.repos[repo], host, sync);
        AddedFrom(target, host, sync, keys[1..], acc[repo := status])
  }

  /** The third loop: the last commit seen of every removed repository. */
  function RemovedFrom(orig: Snap.Snapshot, keys: seq<string>, acc: map<string, RemovedRepoStatus>): map<string, RemovedRepoStatus>
    requires forall i :: 0 <= i < |keys| ==> keys[i] in orig.repos
    decreases |keys|
  {
    if |keys| == 0 then acc
    else RemovedFrom(orig, keys[1..], acc[keys[0] := RemovedRepoStatus(orig.repos[keys[0]].commit)])
  }

  lemma AscendingWithin(s: set<string>, t: set<string>)
    requires s <= t
    ensures forall i :: 0 <= i < |KeyOrder.Ascending(s)| ==> KeyOrder.Ascending(s)[i] in t
  {
    var keys := KeyOrder.Ascending(s);
    forall i | 0 <= i < |keys| ensures keys[i] in t {
      assert keys[i] in keys;
    }
  }

  /** `generate` with the key set of the target given as `targetRepos`
      (line 88 passes the keys of `orig`): the sync stamp first, then the
      moved, added and removed repositories, each in ascending order of key.
      The cross-repository `log` is left empty. */
  function ChangeLogOf(orig: Snap.Snapshot, target: Snap.Snapshot, targetRepos: set<string>, host: Host): Result<ChangeLog, ChangeLogError> {
    var origRepos := orig.repos.Keys;
    var sync :- SyncStampBranch(host.repoInfo);
    var changes :- ChangedFrom(orig, target, host, KeyOrder.Ascending(origRepos * targetRepos), map[]);
    var added :- AddedFrom(target, host, sync, KeyOrder.Ascending(targetRepos - origRepos), map[]);
    AscendingWithin(origRepos - targetRepos, origRepos);
    Ok(ChangeLog(added, RemovedFrom(orig, KeyOrder.Ascending(origRepos - targetRepos), map[]), [], changes))
  }

  /** The first loop (lines 99-108). */
  method ChangedLoop(orig: Snap.Snapshot, target: Snap.Snapshot, host: Host, common: seq<string>)
    returns (r: Result<map<string, RepoChangeLog>, ChangeLogError>)
    ensures r == ChangedFrom(orig, target, host, common, map[])
  {
    var changes: map<string, RepoChangeLog> := map[];
    var i := 0;
    while i < |common|
      invariant 0 <= i <= |common|
      invariant ChangedFrom(orig, target, host, common, map[]) == ChangedFrom(orig, target, host, common[i..], changes)
    {
      var repo := common[i];
      assert common[i..][0] == repo && common[i..][1..] == common[i + 1..];
      if repo !in orig.repos || repo !in target.repos {
        return Err(IndexPanic(repo));
      }
      if orig.repos[repo] != target.repos[repo] {
        var h := host.history(repo, orig.repos[repo].commit, target.repos[repo].commit);
        var log := RepoLog.GenerateRepoChangelog(repo, h.merged, h.firstParent, h.show);
        if log.Err? {
          return Err(SingleRepo(repo, log.error));
        }
        changes := changes[repo := log.value];
      }
      i := i + 1;
    }
    assert common[i..] == [];
    return Ok(changes);
  }

  /** The second loop (lines 110-119). */
  method AddedLoop(target: Snap.Snapshot, host: Host, sync: string, newRepos: seq<string>)
    returns (r: Result<map<string, NewRepoStatus>, ChangeLogError>)
    ensures r == AddedFrom(target, host, sync, newRepos, map[])
  {
    var added: map<string, NewRepoStatus> := map[];
    var i := 0;
    while i < |newRepos|
      invariant 0 <= i <= |newRepos|
      invariant AddedFrom(target, host, sync, newRepos, map[]) == AddedFrom(target, host, sync, newRepos[i..], added)
    {
      var repo := newRepos[i];
      assert newRepos[i..][0] == repo && newRepos[i..][1..] == newRepos[i + 1..];
      if repo !in target.repos {
        return Err(IndexPanic(repo));
      }
      var status := NewRepoStatusOf(RecentWindow, repo, target.repos[repo], host, sync);
      if status.Err? {
        return Err(status.error);
      }
      added := added[repo := status.value];
      i := i + 1;
    }
    assert newRepos[i..] == [];
    return Ok(added);
  }

  /** The third loop (lines 121-128). */
  method RemovedLoop(orig: Snap.Snapshot, gone: seq<string>) returns (removed: map<string, RemovedRepoStatus>)
    requires forall i :: 0 <= i < |gone| ==> gone[i] in orig.repos
    ensures removed == RemovedFrom(orig, gone, map[])
  {
    removed := map[];
    var i := 0;
    while i < |gone|
      invariant 0 <= i <= |gone|
      invariant RemovedFrom(orig, gone, map[]) == RemovedFrom(orig, gone[i..], removed)
    {
      var repo := gone[i];
      assert gone[i..][0] == repo && gone[i..][1..] == gone[i + 1..];
      removed := removed[repo := RemovedRepoStatus(orig.repos[repo].commit)];
      i := i + 1;
    }
    assert gone[i..] == [];
  }

  /** `ChangeLog::generate` from line 89 on, for a given key set of the
      target. */
  method GenerateFrom(orig: Snap.Snapshot, target: Snap.Snapshot, targetRepos: set<string>, host: Host)
    returns (r: Result<ChangeLog, ChangeLogError>)
    ensures r == ChangeLogOf(orig, target, targetRepos, host)
  {
    var origRepos := orig.repos.Keys;
    var sync := SyncStampBranch(host.repoInfo);
    if sync.Err? {
      return Err(sync.error);
    }
    var changes := ChangedLoop(orig, target, host, KeyOrder.Ascending(origRepos * targetRepos));
    if changes.Err? {
      return Err(changes.error);
    }
    var added := AddedLoop(target, host, sync.value, KeyOrder.Ascending(targetRepos - origRepos));
    if added.Err? {
      return Err(added.error);
    }
    AscendingWithin(origRepos - targetRepos, origRepos);
    var removed := RemovedLoop(orig, KeyOrder.Ascending(origRepos - targetRepos));
    return Ok(ChangeLog(added.value, removed, [], changes.value));
  }

  /** `ChangeLog::generate` as written: line 88 takes the target's key set
      from `orig`. */
  method Generate(orig: Snap.Snapshot, target: Snap.Snapshot, host: Host) returns (r: Result<ChangeLog, ChangeLogError>)
    ensures r == ChangeLogOf(orig, target, orig.repos.Keys, host)
  {
    r := GenerateFrom(orig, target, orig.repos.Keys, host);
  }

  /** `ChangeLog::generate` with the target's key set taken from `target`. */
  method GenerateCorrected(orig: Snap.Snapshot, target: Snap.Snapshot, host: Host) returns (r: Result<ChangeLog, ChangeLogError>)
    ensures r == ChangeLogOf(orig, target, target.repos.Keys, host)
  {
    r := GenerateFrom(orig, target, target.repos.Keys, host);
  }

  // ---------------------------------------------------------------------------
  // What generate produces
  // ---------------------------------------------------------------------------

  /** A repository present in both snapshots at different commits. */
  predicate Moved(orig: Snap.Snapshot, target: Snap.Snapshot, repo: string) {
    repo in orig.repos && repo in target.repos && orig.repos[repo] != target.repos[repo]
  }

  /** The log of a moved repository, from its old commit to its new one. */
  function LogFor(orig: Snap.Snapshot, target: Snap.Snapshot, host: Host, repo: string): Result<RepoChangeLog, ChangeLogError>
    requires Moved(orig, target, repo)
  {
    RepoLogOf(repo, host.history(repo, orig.repos[repo].commit, target.repos[repo].commit))
  }

  lemma {:induction false} ChangedFromShape(orig: Snap.Snapshot, target: Snap.Snapshot, host: Host, keys: seq<string>, acc: map<string, RepoChangeLog>)
    requires ChangedFrom(orig, target, host, keys, acc).Ok?
    ensures forall i :: 0 <= i < |keys| ==> keys[i] in orig.repos && keys[i] in target.repos
    ensures var m := ChangedFrom(orig, target, host, keys, acc).value;
      && (forall k :: k in m <==> k in acc || (k in keys && Moved(orig, target, k)))
      && (forall k :: k in m ==>
            if k in keys && Moved(orig, target, k) then Ok(m[k]) == LogFor(orig, target, host, k) else m[k] == acc[k])
    decreases |keys|
  {
    if |keys| > 0 {
      var repo := keys[0];
      var tail := keys[1..];
      assert forall k :: k in keys <==> k == repo || k in tail;
      assert forall i :: 1 <= i < |keys| ==> keys[i] == tail[i - 1];
      if orig.repos[repo] == target.repos[repo] {
        ChangedFromShape(orig, target, host, tail, acc);
      } else {
        ChangedFromShape(orig, target, host, tail, acc[repo := LogFor(orig, target, host, repo).value]);
      }
    }
  }

  lemma {:induction false} AddedFromShape(target: Snap.Snapshot, host: Host, sync: string, keys: seq<string>, acc: map<string, NewRepoStatus>)
    requires AddedFrom(target, host, sync, keys, acc).Ok?
    ensures forall i :: 0 <= i < |keys| ==> keys[i] in target.repos
    ensures var m := AddedFrom(target, host, sync, keys, acc).value;
      && (forall k :: k in m <==> k in acc || k in keys)
      && (forall k :: k in m ==>
            if k in keys then Ok(m[k]) == NewRepoStatusOf(RecentWindow, k, target.repos[k], host, sync) else m[k] == acc[k])
    decreases |keys|
  {
    if |keys| > 0 {
      var repo := keys[0];
      var tail := keys[1..];
      assert forall k :: k in keys <==> k == repo || k in tail;
      assert forall i :: 1 <= i < |keys| ==> keys[i] == tail[i - 1];
      AddedFromShape(target, host, sync, tail, acc[repo := NewRepoStatusOf(RecentWindow, repo, target.repos[repo], host, sync).value]);
    }
  }

  lemma {:induction false} RemovedFromShape(orig: Snap.Snapshot, keys: seq<string>, acc: map<string, RemovedRepoStatus>)
    requires forall i :: 0 <= i < |keys| ==> keys[i] in orig.repos
    ensures var m := RemovedFrom(orig, keys, acc);
      && (forall k :: k in m <==> k in acc || k in keys)
      && (forall k :: k in m ==>
            m[k] == if k in keys then RemovedRepoStatus(orig.repos[k].commit) else acc[k])
    decreases |keys|
  {
    if |keys| > 0 {
      var tail := keys[1..];
      assert forall k :: k in keys <==> k == keys[0] || k in tail;
      assert forall i :: 1 <= i < |tail| ==> tail[i] == keys[i + 1];
      RemovedFromShape(orig, tail, acc[keys[0] := RemovedRepoStatus(orig.repos[keys[0]].commit)]);
    }
  }

  /** What a successful changelog holds: a log for exactly the
      repositories of both key sets whose commit moved, a status for exactly
      the repositories only in the target's key set, the last commit seen for
      exactly those only in `orig`, and an empty cross-repository log. */
  ghost predicate Describes(orig: Snap.Snapshot, target: Snap.Snapshot, targetRepos: set<string>, host: Host, c: ChangeLog) {
    && SyncStampBranch(host.repoInfo).Ok?
    && c.log == []
    && ChangesDescribed(orig, target, targetRepos, host, c.changes)
    && AddedDescribed(orig, target, targetRepos, host, SyncStampBranch(host.repoInfo).value, c.addedRepos)
    && RemovedDescribed(orig, targetRepos, c.removedRepos)
  }

  ghost predicate ChangesDescribed(orig: Snap.Snapshot, target: Snap.Snapshot, targetRepos: set<string>, host: Host, changes: map<string, RepoChangeLog>) {
    && (forall k :: k in orig.repos && k in targetRepos ==> k in target.repos)
    && (forall k :: k in changes <==> k in targetRepos && Moved(orig, target, k))
    && (forall k :: k in changes ==> Ok(changes[k]) == LogFor(orig, target, host, k))
  }

  ghost predicate AddedDescribed(orig: Snap.Snapshot, target: Snap.Snapshot, targetRepos: set<string>, host: Host, sync: string, added: map<string, NewRepoStatus>) {
    && (forall k :: k in added <==> k in targetRepos && k !in orig.repos)
    && (forall k :: k in added ==>
          && k in target.repos
          && Ok(added[k]) == NewRepoStatusOf(RecentWindow, k, target.repos[k], host, sync))
  }

  ghost predicate RemovedDescribed(orig: Snap.Snapshot, targetRepos: set<string>, removed: map<string, RemovedRepoStatus>) {
    && (forall k :: k in removed <==> k in orig.repos && k !in targetRepos)
    && (forall k :: k in removed ==> removed[k] == RemovedRepoStatus(orig.repos[k].commit))
  }

  lemma ChangesPart(orig: Snap.Snapshot, target: Snap.Snapshot, targetRepos: set<string>, host: Host, common: seq<string>)
    requires common == KeyOrder.Ascending(orig.repos.Keys * targetRepos)
    requires ChangedFrom(orig, target, host, common, map[]).Ok?
    ensures ChangesDescribed(orig, target, targetRepos, host, ChangedFrom(orig, target, host, common, map[]).value)
  {
    ChangedFromShape(orig, target, host, common, map[]);
    forall k | k in orig.repos && k in targetRepos
      ensures k in target.repos
    {
      assert k in common;
    }
  }

  lemma AddedPart(orig: Snap.Snapshot, target: Snap.Snapshot, targetRepos: set<string>, host: Host, sync: string, newRepos: seq<string>)
    requires newRepos == KeyOrder.Ascending(targetRepos - orig.repos.Keys)
    requires AddedFrom(target, host, sync, newRepos, map[]).Ok?
    ensures AddedDescribed(orig, target, targetRepos, host, sync, AddedFrom(target, host, sync, newRepos, map[]).value)
  {
    AddedFromShape(target, host, sync, newRepos, map[]);
  }

  lemma RemovedPart(orig: Snap.Snapshot, targetRepos: set<string>, gone: seq<string>)
    requires gone == KeyOrder.Ascending(orig.repos.Keys - targetRepos)
    requires forall i :: 0 <= i < |gone| ==> gone[i] in orig.repos
    ensures RemovedDescribed(orig, targetRepos, RemovedFrom(orig, gone, map[]))
  {
    RemovedFromShape(orig, gone, map[]);
  }

  lemma ChangeLogShape(orig: Snap.Snapshot, target: Snap.Snapshot, targetRepos: set<string>, host: Host)
    requires ChangeLogOf(orig, target, targetRepos, host).Ok?
    ensures Describes(orig, target, targetRepos, host, ChangeLogOf(orig, target, targetRepos, host).value)
  {
    var origRepos := orig.repos.Keys;
    var sync := SyncStampBranch(host.repoInfo).value;
    ChangesPart(orig, target, targetRepos, host, KeyOrder.Ascending(origRepos * targetRepos));
    AddedPart(orig, target, targetRepos, host, sync, KeyOrder.Ascending(targetRepos - origRepos));
    AscendingWithin(origRepos - targetRepos, origRepos);
    RemovedPart(orig, targetRepos, KeyOrder.Ascending(origRepos - targetRepos));
  }

  /** The sync stamp is derived before any repository is looked at, and the
      moved repositories come before the added ones. */
  lemma ChangeLogErrorOrder(orig: Snap.Snapshot, target: Snap.Snapshot, targetRepos: set<string>, host: Host)
    ensures SyncStampBranch(host.repoInfo).Err? ==>
      ChangeLogOf(orig, target, targetRepos, host) == Err(SyncStampBranch(host.repoInfo).error)
    ensures var changes := ChangedFrom(orig, target, host, KeyOrder.Ascending(orig.repos.Keys * targetRepos), map[]);
      SyncStampBranch(host.repoInfo).Ok? && changes.Err? ==>
      ChangeLogOf(orig, target, targetRepos, host) == Err(changes.error)
  {
  }

  /** As written, line 88 makes the target's key set that of `orig`: no
      repository is ever reported added or removed, and the changelog fails
      unless every repository of `orig` is still in the target. */
  lemma LiteralKeysHideAddedAndRemoved(orig: Snap.Snapshot, target: Snap.Snapshot, host: Host)
    requires ChangeLogOf(orig, target, orig.repos.Keys, host).Ok?
    ensures var c := ChangeLogOf(orig, target, orig.repos.Keys, host).value;
      && c.addedRepos == map[] && c.removedRepos == map[]
      && orig.repos.Keys <= target.repos.Keys
      && forall k :: k in target.repos && k !in orig.repos ==> k !in c.addedRepos
  {
    ChangeLogShape(orig, target, orig.repos.Keys, host);
    var c := ChangeLogOf(orig, target, orig.repos.Keys, host).value;
    assert c.addedRepos.Keys == {} && c.removedRepos.Keys == {};
  }

  /** A repository of `orig` missing from the target makes the literal
      changelog fail. */
  lemma LiteralKeysFailOnRemoval(orig: Snap.Snapshot, target: Snap.Snapshot, host: Host, repo: string)
    requires repo in orig.repos && repo !in target.repos
    ensures ChangeLogOf(orig, target, orig.repos.Keys, host).Err?
  {
    if ChangeLogOf(orig, target, orig.repos.Keys, host).Ok? {
      ChangeLogShape(orig, target, orig.repos.Keys, host);
    }
  }

  /** With the target's own key set every repository of either snapshot
      lands in exactly one place: added (only in the target), removed (only
      in `orig`), changed (in both, at different commits) or nowhere (in
      both, at the same commit). */
  lemma IntendedClassification(orig: Snap.Snapshot, target: Snap.Snapshot, host: Host)
    requires ChangeLogOf(orig, target, target.repos.Keys, host).Ok?
    ensures var c := ChangeLogOf(orig, target, target.repos.Keys, host).value;
      && c.addedRepos.Keys == target.repos.Keys - orig.repos.Keys
      && c.removedRepos.Keys == orig.repos.Keys - target.repos.Keys
      && c.changes.Keys == Changed(orig, target, orig.repos.Keys * target.repos.Keys)
      && c.log == []
      && (forall k :: k in c.removedRepos ==> c.removedRepos[k].lastSeenCommit == orig.repos[k].commit)
      && (forall k :: k in c.addedRepos ==> c.addedRepos[k].commit == target.repos[k].commit)
      && c.addedRepos.Keys !! c.removedRepos.Keys
      && c.addedRepos.Keys !! c.changes.Keys
      && c.removedRepos.Keys !! c.changes.Keys
      && (forall k :: k in orig.repos && k in target.repos && orig.repos[k] == target.repos[k] ==>
            k !in c.addedRepos && k !in c.removedRepos && k !in c.changes)
  {
    ChangeLogShape(orig, target, target.repos.Keys, host);
    IntendedSets(orig, target, host, ChangeLogOf(orig, target, target.repos.Keys, host).value);
  }

  lemma IntendedSets(orig: Snap.Snapshot, target: Snap.Snapshot, host: Host, c: ChangeLog)
    requires Describes(orig, target, target.repos.Keys, host, c)
    ensures c.addedRepos.Keys == target.repos.Keys - orig.repos.Keys
    ensures c.removedRepos.Keys == orig.repos.Keys - target.repos.Keys
    ensures c.changes.Keys == Changed(orig, target, orig.repos.Keys * target.repos.Keys)
    ensures forall k :: k in c.removedRepos ==> c.removedRepos[k].lastSeenCommit == orig.repos[k].commit
    ensures forall k :: k in c.addedRepos ==> c.addedRepos[k].commit == target.repos[k].commit
  {
    forall k | k in c.addedRepos
      ensures c.addedRepos[k].commit == target.repos[k].commit
    {
      NewRepoStatusCommit(RecentWindow, k, target.repos[k], host, SyncStampBranch(host.repoInfo).value);
    }
  }

  lemma {:induction false} ChangedFromNoPanic(orig: Snap.Snapshot, target: Snap.Snapshot, host: Host, keys: seq<string>, acc: map<string, RepoChangeLog>)
    requires forall i :: 0 <= i < |keys| ==> keys[i] in orig.repos && keys[i] in target.repos
    ensures ChangedFrom(orig, target, host, keys, acc).Err? ==> ChangedFrom(orig, target, host, keys, acc).error.SingleRepo?
    decreases |keys|
  {
    if |keys| > 0 {
      var repo := keys[0];
      assert forall i :: 1 <= i < |keys| ==> keys[1..][i - 1] == keys[i];
      if orig.repos[repo] == target.repos[repo] {
        ChangedFromNoPanic(orig, target, host, keys[1..], acc);
      } else if LogFor(orig, target, host, repo).Ok? {
        ChangedFromNoPanic(orig, target, host, keys[1..], acc[repo := LogFor(orig, target, host, repo).value]);
      }
    }
  }

  lemma NewRepoStatusNoIndexPanic(max: nat, repo: string, current: Snap.RepoStatus, host: Host, sync: string)
    ensures NewRepoStatusOf(max, repo, current, host, sync).Err? ==> !NewRepoStatusOf(max, repo, current, host, sync).error.IndexPanic?
  {
  }

  lemma {:induction false} AddedFromNoPanic(target: Snap.Snapshot, host: Host, sync: string, keys: seq<string>, acc: map<string, NewRepoStatus>)
    requires forall i :: 0 <= i < |keys| ==> keys[i] in target.repos
    ensures AddedFrom(target, host, sync, keys, acc).Err? ==> !AddedFrom(target, host, sync, keys, acc).error.IndexPanic?
    decreases |keys|
  {
    if |keys| > 0 {
      var repo := keys[0];
      assert forall i :: 1 <= i < |keys| ==> keys[1..][i - 1] == keys[i];
      var status := NewRepoStatusOf(RecentWindow, repo, target.repos[repo], host, sync);
      NewRepoStatusNoIndexPanic(RecentWindow, repo, target.repos[repo], host, sync);
      if status.Ok? {
        AddedFromNoPanic(target, host, sync, keys[1..], acc[repo := status.value]);
      }
    }
  }

  /** With the target's own key set no map is indexed with a missing key: a
      failure is the sync stamp's, a moved repository's log's, or a new
      repository's. */
  lemma IntendedNeverPanicsOnIndex(orig: Snap.Snapshot, target: Snap.Snapshot, host: Host)
    ensures ChangeLogOf(orig, target, target.repos.Keys, host).Err? ==>
      !ChangeLogOf(orig, target, target.repos.Keys, host).error.IndexPanic?
  {
    var origRepos := orig.repos.Keys;
    var targetRepos := target.repos.Keys;
    if SyncStampBranch(host.repoInfo).Ok? {
      var sync := SyncStampBranch(host.repoInfo).value;
      var common := KeyOrder.Ascending(origRepos * targetRepos);
      AscendingWithin(origRepos * targetRepos, origRepos);
      AscendingWithin(origRepos * targetRepos, targetRepos);
      ChangedFromNoPanic(orig, target, host, common, map[]);
      var newRepos := KeyOrder.Ascending(targetRepos - origRepos);
      AscendingWithin(targetRepos - origRepos, targetRepos);
      AddedFromNoPanic(target, host, sync, newRepos, map[]);
    }
  }
}
