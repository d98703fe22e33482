/** A snapshot records, for every repository of the tree, the commit it is
    pinned to. It is read from text with one `<path>:<commit>` line per
    repository (changelog-generator/src/snapshot.rs). */
module Snapshot {
  import opened Wrappers
  import opened Text
  import KeyOrder

  // ---------------------------------------------------------------------------
  // Commit hashes
  // ---------------------------------------------------------------------------

  predicate IsLowerHex(c: char) {
    '0' <= c <= '9' || 'a' <= c <= 'f'
  }

  /** Eight lowercase hex digits start at position `i` of `s`. */
  predicate HexRunAt(s: string, i: nat) {
    i + 8 <= |s| && forall k :: i <= k < i + 8 ==> IsLowerHex(s[k])
  }

  /** A run of eight lowercase hex digits starts at `i` or later; the scan
      the regular-expression search performs. */
  predicate HexRunFrom(s: string, i: nat)
    decreases |s| - i
  {
    i + 8 <= |s| && (HexRunAt(s, i) || HexRunFrom(s, i + 1))
  }

  lemma {:induction false} HexRunFromExists(s: string, i: nat)
    ensures HexRunFrom(s, i) <==> exists j: nat | i <= j :: HexRunAt(s, j)
    decreases |s| - i
  {
    if i + 8 <= |s| {
      HexRunFromExists(s, i + 1);
      if HexRunFrom(s, i + 1) {
        var j: nat :| i + 1 <= j && HexRunAt(s, j);
        assert HexRunAt(s, j);
      }
      if exists j: nat | i <= j :: HexRunAt(s, j) {
        var j: nat :| i <= j && HexRunAt(s, j);
        if j > i {
          assert HexRunFrom(s, i + 1);
        }
      }
    }
  }

  /** The validation of `CommitHash`: the string is not empty and the pattern
      `[0-9a-f]{8, 40}` matches somewhere in it. The pattern has no anchors,
      so a match of at least eight hex digits anywhere is enough, and the
      upper bound of 40 never rejects anything. */
  predicate IsCommitHash(s: string) {
    |s| > 0 && HexRunFrom(s, 0)
  }

  /** `IsCommitHash` as a statement about positions. */
  lemma CommitHashRun(s: string)
    ensures IsCommitHash(s) <==> exists j: nat :: HexRunAt(s, j)
  {
    HexRunFromExists(s, 0);
  }

  type CommitHash = s: string | IsCommitHash(s) witness "00000000"

  /** What a reader of the pattern would expect: 8 to 40 lowercase hex digits
      and nothing else. */
  predicate IsAnchoredCommitHash(s: string) {
    8 <= |s| <= 40 && forall k :: 0 <= k < |s| ==> IsLowerHex(s[k])
  }

  /** Every string of 8 to 40 lowercase hex digits is accepted ... */
  lemma AnchoredIsAccepted(s: string)
    requires IsAnchoredCommitHash(s)
    ensures IsCommitHash(s)
  {
    assert HexRunAt(s, 0);
    CommitHashRun(s);
  }

  /** ... and so is any string around such a run: neither the length bound
      nor the characters outside the run are checked. */
  lemma UnanchoredAcceptsSurroundings(prefix: string, run: string, suffix: string)
    requires IsAnchoredCommitHash(run)
    ensures IsCommitHash(prefix + run + suffix)
  {
    var s := prefix + run + suffix;
    assert forall k :: |prefix| <= k < |prefix| + 8 ==> s[k] == run[k - |prefix|];
    assert HexRunAt(s, |prefix|);
    CommitHashRun(s);
  }

  /** The hashes of the snapshot tests of snapshot.rs are accepted, their
      invalid one is not. */
  lemma TestHashes()
    ensures IsCommitHash("413223ae32d8f")
    ensures IsCommitHash("abcd1234ef567890")
    ensures !IsCommitHash("invalid_commit")
  {
    assert HexRunAt("413223ae32d8f", 0);
    assert HexRunAt("abcd1234ef567890", 0);
    CommitHashRun("invalid_commit");
    forall j: nat ensures !HexRunAt("invalid_commit", j) {
      if j + 8 <= 14 {
        var k := if j <= 2 then 2 else if j <= 4 then 4 else if j <= 7 then 7 else 9;
        assert !IsLowerHex("invalid_commit"[k]);
      }
    }
  }

  // ---------------------------------------------------------------------------
  // Snapshots and their parser
  // ---------------------------------------------------------------------------

  datatype RepoStatus = RepoStatus(commit: CommitHash)

  datatype Snapshot = Snapshot(repos: map<string, RepoStatus>)

  datatype SnapshotError =
    | InvalidRepoStatusInput(input: string)
    | DuplicatedRepo(repo: string)
    | InvalidCommit(commit: string, repo: string)

  /** A line of the input as the parser sees it: without a `:`, or split at
      its last `:` into the trimmed path and the trimmed commit. */
  datatype StatusLine =
    | NoColon(line: string)
    | Parts(repo: string, commit: string)

  function SplitStatusLine(line: string): (r: StatusLine)
    ensures r.NoColon? <==> ':' !in line
    ensures r.NoColon? ==> r.line == line
    ensures r.Parts? ==> exists a, b ::
      && line == a + ":" + b && ':' !in b
      && r.repo == Trim(a) && r.commit == Trim(b)
  {
    match RSplitOnce(line, ':')
    case None => NoColon(line)
    case Some((repo, commit)) =>
      assert line == repo + ":" + commit;
      Parts(Trim(repo), Trim(commit))
  }

  /** Whitespace around the path and around the commit is dropped, as in
      the source's own test of a padded line. */
  lemma {:induction false} SplitTrimsPadding(pre: string, repo: string, mid: string, post: string, commit: string, tail: string)
    requires forall k :: 0 <= k < |pre| ==> IsRustWhitespace(pre[k])
    requires forall k :: 0 <= k < |mid| ==> IsRustWhitespace(mid[k])
    requires forall k :: 0 <= k < |post| ==> IsRustWhitespace(post[k])
    requires forall k :: 0 <= k < |tail| ==> IsRustWhitespace(tail[k])
    requires |repo| > 0 && Trimmed(repo, IsRustWhitespace)
    requires |commit| > 0 && Trimmed(commit, IsRustWhitespace) && ':' !in commit
    requires ':' !in post && ':' !in tail
    ensures SplitStatusLine(pre + repo + mid + ":" + post + commit + tail) == Parts(repo, commit)
  {
    var b := post + commit + tail;
    assert ':' !in b by {
      assert forall x :: x in b ==> x in post || x in commit || x in tail;
    }
    assert pre + repo + mid + ":" + post + commit + tail == (pre + repo + mid) + [':'] + b;
    RSplitOnceOf(pre + repo + mid, ':', b);
    TrimByPadded(pre, repo, mid, IsRustWhitespace);
    TrimByPadded(post, commit, tail, IsRustWhitespace);
  }

  /** `test_parse_trims_whitespace`: the padded line's path is the key. */
  lemma TrimsWhitespaceTest()
    ensures SplitStatusLine(" system/core " + ":" + "  413223ae32d8f  ") == Parts("system/core", "413223ae32d8f")
  {
    TestLine();
    TestParts();
    SplitTrimsPadding(" ", "system/core", " ", "  ", "413223ae32d8f", "  ");
  }

  lemma TestLine()
    ensures " system/core " + ":" + "  413223ae32d8f  " == " " + "system/core" + " " + ":" + "  " + "413223ae32d8f" + "  "
  {
  }

  lemma TestParts()
    ensures Trimmed("system/core", IsRustWhitespace) && Trimmed("413223ae32d8f", IsRustWhitespace)
    ensures ':' !in "413223ae32d8f" && ':' !in "  "
  {
  }

  function SplitStatusLines(lines: seq<string>): seq<StatusLine> {
    seq(|lines|, i requires 0 <= i < |lines| => SplitStatusLine(lines[i]))
  }

  /** One iteration of `Snapshot::parse` with the repositories read so far. */
  function AddLine(repos: map<string, RepoStatus>, l: StatusLine): Result<map<string, RepoStatus>, SnapshotError> {
    match l
    case NoColon(line) => Err(InvalidRepoStatusInput(line))
    case Parts(repo, commit) =>
      if repo in repos then Err(DuplicatedRepo(repo))
      else if !IsCommitHash(commit) then Err(InvalidCommit(commit, repo))
      else Ok(repos[repo := RepoStatus(commit)])
  }

  /** The iterations over the remaining lines, stopping at the first error. */
  function AddLines(repos: map<string, RepoStatus>, ls: seq<StatusLine>): Result<map<string, RepoStatus>, SnapshotError>
    decreases |ls|
  {
    if |ls| == 0 then Ok(repos)
    else
      match AddLine(repos, ls[0])
      case Err(e) => Err(e)
      case Ok(next) => AddLines(next, ls[1..])
  }

  /** What `Snapshot::parse` returns for `input`. */
  function SnapshotOf(input: string): Result<Snapshot, SnapshotError> {
    SnapshotOfLines(SplitStatusLines(Lines(input)))
  }

  /** The snapshot read from the split lines of the input. */
  function SnapshotOfLines(ls: seq<StatusLine>): Result<Snapshot, SnapshotError> {
    match AddLines(map[], ls)
    case Err(e) => Err(e)
    case Ok(repos) => Ok(Snapshot(repos))
  }

  /** `Snapshot::parse`: loops over the lines, inserting each repository into
      the map and returning at the first malformed line. */
  method Parse(input: string) returns (r: Result<Snapshot, SnapshotError>)
    ensures r == SnapshotOf(input)
  {
    var lines := Lines(input);
    ghost var ls := SplitStatusLines(lines);
    var repos: map<string, RepoStatus> := map[];
    var i := 0;
    while i < |lines|
      invariant 0 <= i <= |lines|
      invariant AddLines(repos, ls[i..]) == AddLines(map[], ls)
    {
      var line := lines[i];
      var split := RSplitOnce(line, ':');
      if split.None? {
        return Err(InvalidRepoStatusInput(line));
      }
      var repo := Trim(split.value.0);
      var commit := Trim(split.value.1);
      if repo in repos {
        return Err(DuplicatedRepo(repo));
      }
      if !IsCommitHash(commit) {
        return Err(InvalidCommit(commit, repo));
      }
      assert ls[i..][1..] == ls[i + 1..];
      repos := repos[repo := RepoStatus(commit)];
      i := i + 1;
    }
    return Ok(Snapshot(repos));
  }

  // ---------------------------------------------------------------------------
  // What the parser accepts, line by line
  // ---------------------------------------------------------------------------

  /** The paths of the lines that have a `:`. */
  function KeysOf(ls: seq<StatusLine>): set<string>
    decreases |ls|
  {
    if |ls| == 0 then {}
    else (if ls[0].Parts? then {ls[0].repo} else {}) + KeysOf(ls[1..])
  }

  /** The complaint about a line once the paths in `seen` have been read:
      a missing `:` first, then a repeated path, and only then an invalid
      commit. */
  function Verdict(seen: set<string>, l: StatusLine): Option<SnapshotError> {
    if l.NoColon? then Some(InvalidRepoStatusInput(l.line))
    else if l.repo in seen then Some(DuplicatedRepo(l.repo))
    else if !IsCommitHash(l.commit) then Some(InvalidCommit(l.commit, l.repo))
    else None
  }

  /** Every line is acceptable after the ones before it. */
  predicate AllAccepted(seen: set<string>, ls: seq<StatusLine>) {
    forall i :: 0 <= i < |ls| ==> Verdict(seen + KeysOf(ls[..i]), ls[i]).None?
  }

  lemma KeysOfCons(l: StatusLine, rest: seq<StatusLine>)
    ensures KeysOf([l] + rest) == (if l.Parts? then {l.repo} else {}) + KeysOf(rest)
  {
    assert ([l] + rest)[1..] == rest;
  }

  /** One step of the fold: an acceptable line is added, any other stops it
      with its complaint. */
  lemma AddLineVerdict(acc: map<string, RepoStatus>, l: StatusLine)
    ensures Verdict(acc.Keys, l).None? <==> AddLine(acc, l).Ok?
    ensures Verdict(acc.Keys, l).None? ==> AddLine(acc, l).value == acc[l.repo := RepoStatus(l.commit)]
    ensures Verdict(acc.Keys, l).Some? ==> AddLine(acc, l) == Err(Verdict(acc.Keys, l).value)
  {
  }

  /** The acceptance of the lines after the first, seen from the map the first
      line leads to. */
  lemma AcceptedShift(acc: map<string, RepoStatus>, l: StatusLine, rest: seq<StatusLine>, n: nat)
    requires Verdict(acc.Keys, l).None? && n <= |rest|
    ensures AllAccepted(acc.Keys, ([l] + rest)[..n + 1]) <==> AllAccepted(acc[l.repo := RepoStatus(l.commit)].Keys, rest[..n])
  {
    var next := acc[l.repo := RepoStatus(l.commit)];
    var ls := ([l] + rest)[..n + 1];
    assert ls == [l] + rest[..n];
    forall i | 0 <= i < n
      ensures acc.Keys + KeysOf(ls[..i + 1]) == next.Keys + KeysOf(rest[..n][..i])
      ensures ls[i + 1] == rest[..n][i]
    {
      assert ls[..i + 1] == [l] + rest[..n][..i];
      KeysOfCons(l, rest[..n][..i]);
    }
    assert ls[..0] == [];
    if AllAccepted(next.Keys, rest[..n]) {
      forall i | 0 <= i < |ls|
        ensures Verdict(acc.Keys + KeysOf(ls[..i]), ls[i]).None?
      {
        if i > 0 {
          assert Verdict(next.Keys + KeysOf(rest[..n][..i - 1]), rest[..n][i - 1]).None?;
        }
      }
    }
    if AllAccepted(acc.Keys, ls) {
      forall i | 0 <= i < n
        ensures Verdict(next.Keys + KeysOf(rest[..n][..i]), rest[..n][i]).None?
      {
        assert Verdict(acc.Keys + KeysOf(ls[..i + 1]), ls[i + 1]).None?;
      }
    }
  }

  /** A line rejected after the first one is rejected at the next position
      of the whole sequence. */
  lemma RejectedShift(acc: map<string, RepoStatus>, l: StatusLine, rest: seq<StatusLine>, i: nat)
    requires Verdict(acc.Keys, l).None? && i < |rest|
    requires AllAccepted(acc[l.repo := RepoStatus(l.commit)].Keys, rest[..i])
    ensures AllAccepted(acc.Keys, ([l] + rest)[..i + 1])
    ensures acc.Keys + KeysOf(([l] + rest)[..i + 1]) == acc[l.repo := RepoStatus(l.commit)].Keys + KeysOf(rest[..i])
    ensures ([l] + rest)[i + 1] == rest[i]
  {
    AcceptedShift(acc, l, rest, i);
    assert ([l] + rest)[..i + 1] == [l] + rest[..i];
    KeysOfCons(l, rest[..i]);
  }

  /** The parser succeeds exactly when every line is acceptable after the
      lines before it. */
  lemma {:induction false} AddLinesAccepts(acc: map<string, RepoStatus>, ls: seq<StatusLine>)
    ensures AddLines(acc, ls).Ok? <==> AllAccepted(acc.Keys, ls)
    decreases |ls|
  {
    if |ls| > 0 {
      AddLineVerdict(acc, ls[0]);
      if Verdict(acc.Keys, ls[0]).None? {
        AddLinesAccepts(acc[ls[0].repo := RepoStatus(ls[0].commit)], ls[1..]);
        AcceptedHead(acc, ls);
      } else {
        RejectedHead(acc, ls);
      }
    }
  }

  /** An acceptable first line: acceptance is that of the rest, from the map
      the first line leads to. */
  lemma AcceptedHead(acc: map<string, RepoStatus>, ls: seq<StatusLine>)
    requires |ls| > 0 && Verdict(acc.Keys, ls[0]).None?
    ensures AddLines(acc, ls) == AddLines(acc[ls[0].repo := RepoStatus(ls[0].commit)], ls[1..])
    ensures AllAccepted(acc.Keys, ls) <==> AllAccepted(acc[ls[0].repo := RepoStatus(ls[0].commit)].Keys, ls[1..])
  {
    var l, rest := ls[0], ls[1..];
    AddLineVerdict(acc, l);
    AcceptedShift(acc, l, rest, |rest|);
    assert ([l] + rest)[..|rest| + 1] == ls;
    assert rest[..|rest|] == rest;
  }

  /** A rejected first line fails the parse and is not acceptable. */
  lemma RejectedHead(acc: map<string, RepoStatus>, ls: seq<StatusLine>)
    requires |ls| > 0 && Verdict(acc.Keys, ls[0]).Some?
    ensures AddLines(acc, ls).Err? && !AllAccepted(acc.Keys, ls)
  {
    AddLineVerdict(acc, ls[0]);
    assert ls[..0] == [];
    assert acc.Keys + KeysOf(ls[..0]) == acc.Keys;
  }

  /** On failure, the error is the complaint about the first line that is
      not acceptable: every line before it was. */
  lemma {:induction false} AddLinesFirstError(acc: map<string, RepoStatus>, ls: seq<StatusLine>)
    requires AddLines(acc, ls).Err?
    ensures exists i :: (0 <= i < |ls|
      && AllAccepted(acc.Keys, ls[..i])
      && Verdict(acc.Keys + KeysOf(ls[..i]), ls[i]) == Some(AddLines(acc, ls).error))
    decreases |ls|
  {
    var l, rest := ls[0], ls[1..];
    assert ls == [l] + rest;
    assert ls[..0] == [];
    AddLineVerdict(acc, l);
    if Verdict(acc.Keys, l).None? {
      var next := acc[l.repo := RepoStatus(l.commit)];
      AddLinesFirstError(next, rest);
      var i :| 0 <= i < |rest|
        && AllAccepted(next.Keys, rest[..i])
        && Verdict(next.Keys + KeysOf(rest[..i]), rest[i]) == Some(AddLines(next, rest).error);
      RejectedShift(acc, l, rest, i);
    } else {
      assert AllAccepted(acc.Keys, ls[..0]);
    }
  }

  /** A successful fold accepted its first line and went on from the map
      with that line added. */
  lemma AddLinesHead(acc: map<string, RepoStatus>, ls: seq<StatusLine>)
    requires |ls| > 0 && AddLines(acc, ls).Ok?
    ensures ls[0].Parts? && ls[0].repo !in acc && IsCommitHash(ls[0].commit)
    ensures AddLines(acc, ls) == AddLines(acc[ls[0].repo := RepoStatus(ls[0].commit)], ls[1..])
  {
  }

  lemma {:induction false} AddLinesKeys(acc: map<string, RepoStatus>, ls: seq<StatusLine>)
    requires AddLines(acc, ls).Ok?
    ensures AddLines(acc, ls).value.Keys == acc.Keys + KeysOf(ls)
    ensures |AddLines(acc, ls).value| == |acc| + |ls|
    decreases |ls|
  {
    if |ls| > 0 {
      AddLinesHead(acc, ls);
      AddLinesKeys(acc[ls[0].repo := RepoStatus(ls[0].commit)], ls[1..]);
    }
  }

  lemma {:induction false} AddLinesKeeps(acc: map<string, RepoStatus>, ls: seq<StatusLine>, k: string)
    requires AddLines(acc, ls).Ok? && k in acc
    ensures k in AddLines(acc, ls).value && AddLines(acc, ls).value[k] == acc[k]
    decreases |ls|
  {
    if |ls| > 0 {
      AddLinesHead(acc, ls);
      AddLinesKeeps(acc[ls[0].repo := RepoStatus(ls[0].commit)], ls[1..], k);
    }
  }

  lemma {:induction false} AddLinesEntry(acc: map<string, RepoStatus>, ls: seq<StatusLine>, i: nat)
    requires AddLines(acc, ls).Ok? && i < |ls|
    ensures ls[i].Parts? && ls[i].repo in AddLines(acc, ls).value
    ensures AddLines(acc, ls).value[ls[i].repo].commit == ls[i].commit
    decreases |ls|
  {
    AddLinesHead(acc, ls);
    var next := acc[ls[0].repo := RepoStatus(ls[0].commit)];
    if i == 0 {
      AddLinesKeeps(next, ls[1..], ls[0].repo);
    } else {
      AddLinesEntry(next, ls[1..], i - 1);
    }
  }

  /** On success the map holds one entry per line, keyed by the line's trimmed
      path and holding its trimmed commit, on top of what was there before. */
  lemma AddLinesContents(acc: map<string, RepoStatus>, ls: seq<StatusLine>)
    requires AddLines(acc, ls).Ok?
    ensures var m := AddLines(acc, ls).value;
      && m.Keys == acc.Keys + KeysOf(ls)
      && |m| == |acc| + |ls|
      && (forall k :: k in acc ==> m[k] == acc[k])
      && (forall i :: 0 <= i < |ls| ==> ls[i].Parts? && ls[i].repo in m && m[ls[i].repo].commit == ls[i].commit)
  {
    AddLinesKeys(acc, ls);
    forall k | k in acc ensures AddLines(acc, ls).value[k] == acc[k] {
      AddLinesKeeps(acc, ls, k);
    }
    forall i | 0 <= i < |ls|
      ensures ls[i].Parts? && ls[i].repo in AddLines(acc, ls).value
      ensures AddLines(acc, ls).value[ls[i].repo].commit == ls[i].commit
    {
      AddLinesEntry(acc, ls, i);
    }
  }

  /** The parser in one statement: it succeeds exactly when every line is
      acceptable after the ones before it; then the key set is exactly the
      set of trimmed paths, there are as many entries as lines, and each
      line's path maps to its own commit. */
  lemma ParseAccepts(ls: seq<StatusLine>)
    ensures SnapshotOfLines(ls).Ok? <==> AllAccepted({}, ls)
    ensures SnapshotOfLines(ls).Ok? ==>
      var m := SnapshotOfLines(ls).value.repos;
      && m.Keys == KeysOf(ls)
      && |m| == |ls|
      && forall i :: 0 <= i < |ls| ==> ls[i].Parts? && ls[i].repo in m && m[ls[i].repo].commit == ls[i].commit
  {
    var m0: map<string, RepoStatus> := map[];
    assert m0.Keys == {};
    AddLinesAccepts(m0, ls);
    if SnapshotOfLines(ls).Ok? {
      AddLinesContents(m0, ls);
    }
  }

  /** The parser stops at the first offending line, in input order. */
  lemma ParseFirstError(ls: seq<StatusLine>)
    requires SnapshotOfLines(ls).Err?
    ensures exists i :: (0 <= i < |ls|
      && AllAccepted({}, ls[..i])
      && Verdict(KeysOf(ls[..i]), ls[i]) == Some(SnapshotOfLines(ls).error))
  {
    var m0: map<string, RepoStatus> := map[];
    assert m0.Keys == {};
    AddLinesFirstError(m0, ls);
    var i :| 0 <= i < |ls|
      && AllAccepted(m0.Keys, ls[..i])
      && Verdict(m0.Keys + KeysOf(ls[..i]), ls[i]) == Some(AddLines(m0, ls).error);
    assert m0.Keys + KeysOf(ls[..i]) == KeysOf(ls[..i]);
  }

  /** A line without `:`, the empty line included, is rejected with the
      line itself, whatever was read before. */
  lemma NoColonRejected(seen: set<string>, line: string)
    requires ':' !in line
    ensures Verdict(seen, SplitStatusLine(line)) == Some(InvalidRepoStatusInput(line))
  {
  }

  /** A repeated path is reported as such even when its commit is invalid
      too: the duplicate check comes first. */
  lemma DuplicateBeforeCommitCheck(seen: set<string>, line: string)
    requires SplitStatusLine(line).Parts? && SplitStatusLine(line).repo in seen
    ensures Verdict(seen, SplitStatusLine(line)) == Some(DuplicatedRepo(SplitStatusLine(line).repo))
  {
  }

  // ---------------------------------------------------------------------------
  // Writing a snapshot back as text
  // ---------------------------------------------------------------------------

  /** A path and commit that survive being written as `path:commit`: no line
      break, no surrounding whitespace, and no `:` in the commit (a path may
      contain `:`, since the line is split at its last one). */
  predicate Writable(path: string, commit: string) {
    && '\n' !in path && Trimmed(path, IsRustWhitespace)
    && '\n' !in commit && ':' !in commit && Trimmed(commit, IsRustWhitespace)
  }

  function StatusLines(entries: seq<(string, CommitHash)>): (r: seq<string>)
    ensures |r| == |entries|
    ensures forall i :: 0 <= i < |r| ==> r[i] == entries[i].0 + ":" + entries[i].1
  {
    if |entries| == 0 then [] else [entries[0].0 + ":" + entries[0].1] + StatusLines(entries[1..])
  }

  function Render(entries: seq<(string, CommitHash)>): string {
    Terminated(StatusLines(entries))
  }

  lemma SplitWritten(path: string, commit: CommitHash)
    requires Writable(path, commit)
    ensures SplitStatusLine(path + ":" + commit) == Parts(path, commit)
  {
    RSplitOnceOf(path, ':', commit);
    TrimOfTrimmed(path);
    TrimOfTrimmed(commit);
  }

  function PartsOf(entries: seq<(string, CommitHash)>): (r: seq<StatusLine>)
    ensures |r| == |entries|
    ensures forall i :: 0 <= i < |entries| ==> r[i] == Parts(entries[i].0, entries[i].1)
  {
    seq(|entries|, i requires 0 <= i < |entries| => Parts(entries[i].0, entries[i].1))
  }

  lemma {:induction false} KeysOfMember(ls: seq<StatusLine>, x: string)
    requires x in KeysOf(ls)
    ensures exists i :: 0 <= i < |ls| && ls[i].Parts? && ls[i].repo == x
    decreases |ls|
  {
    if !(ls[0].Parts? && ls[0].repo == x) {
      KeysOfMember(ls[1..], x);
      var i :| 0 <= i < |ls[1..]| && ls[1..][i].Parts? && ls[1..][i].repo == x;
      assert ls[i + 1] == ls[1..][i];
    }
  }

  /** Distinct writable entries written as lines are all accepted. */
  lemma {:induction false} AddWritten(acc: map<string, RepoStatus>, entries: seq<(string, CommitHash)>)
    requires forall i :: 0 <= i < |entries| ==> Writable(entries[i].0, entries[i].1) && entries[i].0 !in acc
    requires forall i, j :: 0 <= i < j < |entries| ==> entries[i].0 != entries[j].0
    ensures AddLines(acc, PartsOf(entries)).Ok?
    decreases |entries|
  {
    if |entries| > 0 {
      var e, rest := entries[0], entries[1..];
      var next := acc[e.0 := RepoStatus(e.1)];
      var ps := PartsOf(entries);
      assert AddLine(acc, ps[0]) == Ok(next);
      assert ps[1..] == PartsOf(rest);
      forall i | 0 <= i < |rest| ensures rest[i].0 !in next {
        assert rest[i] == entries[i + 1];
      }
      AddWritten(next, rest);
    }
  }

  /** The rendered lines split back into the entries. */
  lemma RenderedLines(entries: seq<(string, CommitHash)>)
    requires forall i :: 0 <= i < |entries| ==> Writable(entries[i].0, entries[i].1)
    ensures SplitStatusLines(Lines(Render(entries))) == PartsOf(entries)
  {
    var ls := StatusLines(entries);
    forall i | 0 <= i < |ls| ensures PlainLine(ls[i]) {
      var c := entries[i].1;
      assert ls[i] == entries[i].0 + ":" + c;
      assert ls[i][|ls[i]| - 1] == c[|c| - 1];
    }
    LinesOfTerminated(ls);
    forall i | 0 <= i < |ls| ensures SplitStatusLine(ls[i]) == PartsOf(entries)[i] {
      SplitWritten(entries[i].0, entries[i].1);
    }
  }

  /** Parsing distinct writable entries gives back exactly those entries. */
  lemma ReadBack(entries: seq<(string, CommitHash)>)
    requires forall i :: 0 <= i < |entries| ==> Writable(entries[i].0, entries[i].1)
    requires forall i, j :: 0 <= i < j < |entries| ==> entries[i].0 != entries[j].0
    ensures SnapshotOfLines(PartsOf(entries)).Ok?
    ensures var m := SnapshotOfLines(PartsOf(entries)).value.repos;
      && (forall p :: p in m <==> exists i :: 0 <= i < |entries| && entries[i].0 == p)
      && forall i :: 0 <= i < |entries| ==> m[entries[i].0] == RepoStatus(entries[i].1)
  {
    var ps := PartsOf(entries);
    var m0: map<string, RepoStatus> := map[];
    AddWritten(m0, entries);
    AddLinesContents(m0, ps);
    var m := SnapshotOfLines(ps).value.repos;
    forall p | p in m ensures exists i :: 0 <= i < |entries| && entries[i].0 == p {
      KeysOfMember(ps, p);
      var i :| 0 <= i < |ps| && ps[i].Parts? && ps[i].repo == p;
      assert entries[i].0 == p;
    }
  }

  /** Writing distinct, writable path/commit pairs as lines and parsing the
      text gives back exactly those pairs. */
  lemma RoundTrip(entries: seq<(string, CommitHash)>)
    requires forall i :: 0 <= i < |entries| ==> Writable(entries[i].0, entries[i].1)
    requires forall i, j :: 0 <= i < j < |entries| ==> entries[i].0 != entries[j].0
    ensures SnapshotOf(Render(entries)).Ok?
    ensures var m := SnapshotOf(Render(entries)).value.repos;
      && (forall p :: p in m <==> exists i :: 0 <= i < |entries| && entries[i].0 == p)
      && forall i :: 0 <= i < |entries| ==> m[entries[i].0] == RepoStatus(entries[i].1)
  {
    RenderedLines(entries);
    ReadBack(entries);
  }

  /** The entries of a snapshot in key order, as a `BTreeMap` yields them. */
  function Entries(s: Snapshot): (r: seq<(string, CommitHash)>)
    ensures |r| == |s.repos|
    ensures forall i :: 0 <= i < |r| ==> r[i].0 in s.repos && r[i].1 == s.repos[r[i].0].commit
    ensures forall i, j :: 0 <= i < j < |r| ==> r[i].0 != r[j].0
  {
    var keys := KeyOrder.Ascending(s.repos.Keys);
    seq(|keys|, i requires 0 <= i < |keys| => (keys[i], s.repos[keys[i]].commit))
  }

  /** Every repository of the snapshot has an entry. */
  lemma EntriesCover(s: Snapshot, p: string)
    requires p in s.repos
    ensures exists i :: 0 <= i < |Entries(s)| && Entries(s)[i].0 == p
  {
    var keys := KeyOrder.Ascending(s.repos.Keys);
    var i :| 0 <= i < |keys| && keys[i] == p;
    assert Entries(s)[i].0 == p;
  }

  /** A map holding exactly the entries of a snapshot is its map. */
  lemma MapOfEntries(s: Snapshot, m: map<string, RepoStatus>)
    requires forall p :: p in m <==> exists i :: 0 <= i < |Entries(s)| && Entries(s)[i].0 == p
    requires forall i :: 0 <= i < |Entries(s)| ==> m[Entries(s)[i].0] == RepoStatus(Entries(s)[i].1)
    ensures m == s.repos
  {
    forall p | p in m ensures p in s.repos && m[p] == s.repos[p] {
      EntryOf(s, m, p);
    }
    forall p | p in s.repos ensures p in m {
      EntriesCover(s, p);
    }
  }

  lemma EntryOf(s: Snapshot, m: map<string, RepoStatus>, p: string)
    requires p in m
    requires forall p :: p in m <==> exists i :: 0 <= i < |Entries(s)| && Entries(s)[i].0 == p
    requires forall i :: 0 <= i < |Entries(s)| ==> m[Entries(s)[i].0] == RepoStatus(Entries(s)[i].1)
    ensures p in s.repos && m[p] == s.repos[p]
  {
    var es := Entries(s);
    var i :| 0 <= i < |es| && es[i].0 == p;
  }

  /** Rendering a whole snapshot and parsing it again gives the same snapshot. */
  lemma SnapshotRoundTrip(s: Snapshot)
    requires forall p :: p in s.repos ==> Writable(p, s.repos[p].commit)
    ensures SnapshotOf(Render(Entries(s))) == Ok(s)
  {
    RoundTrip(Entries(s));
    MapOfEntries(s, SnapshotOf(Render(Entries(s))).value.repos);
  }
}
