/** The changelog of a single repository (changelog-generator/src/repo_log.rs):
    the parser for the text `git show --format=fuller --date=unix --no-patch`
    prints for one commit, and the assembly of one `Change` per first-parent
    commit between two revisions. The git queries are not run: their results
    are inputs. */
module RepoLog {
  import opened Wrappers
  import opened Text
  import opened Process
  import opened Changes

  // ---------------------------------------------------------------------------
  // Errors
  // ---------------------------------------------------------------------------

  /** Why the text of a commit could not be parsed. */
  datatype CommitReason =
    | NoSeparator
    | NoIndent
    | NoTitle
    | NoAuthorField
    | NoCommitDateField
  {
    function Message(): string {
      match this
      case NoSeparator => "header does not contain key-value separator `:`"
      case NoIndent => "Commit body line does not start with 4 spaces"
      case NoTitle => "The commit does not have a title"
      case NoAuthorField => "header does not contain Author field"
      case NoCommitDateField => "header does not contain CommitDate field"
    }
  }

  /** Why the `Author` header could not be split into name and email. */
  datatype AuthorReason =
    | NoSpace
    | NoOpeningBracket
    | NoClosingBracket
  {
    function Message(): string {
      match this
      case NoSpace => "Cannot split author into name and email"
      case NoOpeningBracket => "The email part does not begin with `<`"
      case NoClosingBracket => "The email part does not end with `>`"
    }
  }

  /** The errors of the per-repository log. `Git` keeps the standard error
      of the failed command; `ParseDate` is always the failure to read a
      `u32` (the reason text `DateReason`). */
  const DateReason := "Failed to parse date as an unsigned integer. Did you use `--date=unix`?"

  datatype RepoChangelogError =
    | CommandExecution
    | Git(stderr: string)
    | ParseCommit(commit: string, raw: string, reason: CommitReason)
    | ParseAuthor(raw: string, why: AuthorReason)
    | ParseDate(raw: string)
  // ---------------------------------------------------------------------------
  // The commit text, line by line
  // ---------------------------------------------------------------------------

  /** What `parse_commit` returns. `commitDate` is in seconds since the Unix
      epoch. */
  datatype ParsedCommit = ParsedCommit(
    authorName: string,
    authorEmail: string,
    commitDate: nat,
    title: string,
    description: string,
    changeId: Option<string>)

  /** Headers until the first empty line, then the title lines until the
      first blank indented line, then the body. */
  datatype Stage = Headers | Title | Body

  /** The variables of the parsing loop. */
  datatype Progress = Progress(
    stage: Stage,
    author: Option<string>,
    commitDate: Option<string>,
    title: string,
    description: string)

  const Start := Progress(Headers, None, None, "", "")

  const Indent := "    "

  /** A header line keeps its trimmed value when its trimmed key is `Author`
      or `CommitDate`; any other header is ignored. */
  function RecordHeader(p: Progress, key: string, value: string): Progress {
    if key == "Author" then p.(author := Some(value))
    else if key == "CommitDate" then p.(commitDate := Some(value))
    else p
  }

  /** The title with one more fragment: a single space between fragments. */
  function AppendFragment(title: string, fragment: string): string {
    if |title| == 0 then fragment else title + " " + fragment
  }

  /** One iteration of the parsing loop. */
  function Step(p: Progress, line: string): Result<Progress, CommitReason> {
    match p.stage
    case Headers =>
      if |line| == 0 then Ok(p.(stage := Title))
      else (
        match SplitOnce(line, ':')
        case None => Err(NoSeparator)
        case Some((key, value)) => Ok(RecordHeader(p, Trim(key), Trim(value))))
    case Title => (
      match StripPrefix(line, Indent)
      case None => Err(NoIndent)
      case Some(rest) =>
        if |rest| == 0 then
          if |p.title| == 0 then Err(NoTitle) else Ok(p.(stage := Body))
        else Ok(p.(title := AppendFragment(p.title, rest))))
    case Body =>
      match StripPrefix(line, Indent)
      case None => Err(NoIndent)
      case Some(rest) => Ok(p.(description := p.description + Trim(rest) + "\n"))
  }

  /** The loop over the remaining lines, stopping at the first error. */
  function Scan(p: Progress, lines: seq<string>): Result<Progress, CommitReason>
    decreases |lines|
  {
    if |lines| == 0 then Ok(p)
    else
      match Step(p, lines[0])
      case Err(reason) => Err(reason)
      case Ok(next) => Scan(next, lines[1..])
  }

  /** The lines the loop reads: all but the first (the `commit <hash>` line). */
  function BodyLines(details: string): seq<string> {
    var ls := Lines(details);
    if |ls| == 0 then [] else ls[1..]
  }

  // ---------------------------------------------------------------------------
  // Author and date
  // ---------------------------------------------------------------------------

  /** `Name <email>` split at the last space into the name and the email
      without its angle brackets. */
  function SplitAuthor(author: string): Result<(string, string), AuthorReason> {
    match RSplitOnce(author, ' ')
    case None => Err(NoSpace)
    case Some((name, rest)) =>
      match StripPrefix(rest, "<")
      case None => Err(NoOpeningBracket)
      case Some(bracketed) =>
        match StripSuffix(bracketed, ">")
        case None => Err(NoClosingBracket)
        case Some(email) => Ok((name, email))
  }

  predicate IsDigit(c: char) {
    '0' <= c <= '9'
  }

  predicate AllDigits(s: string) {
    forall k :: 0 <= k < |s| ==> IsDigit(s[k])
  }

  /** The value of a string of decimal digits. */
  function DecimalValue(s: string): nat
    requires AllDigits(s)
    decreases |s|
  {
    if |s| == 0 then 0
    else DecimalValue(s[..|s| - 1]) * 10 + (s[|s| - 1] as int - '0' as int)
  }

  const U32Limit: nat := 0x1_0000_0000

  /** `u32::from_str`: an optional `+`, then at least one decimal digit, and
      a value below 2^32. */
  function ParseU32(s: string): (r: Option<nat>)
    ensures r.Some? ==> r.value < U32Limit
  {
    var digits := if |s| > 0 && s[0] == '+' then s[1..] else s;
    if |digits| == 0 || !AllDigits(digits) then None
    else if DecimalValue(digits) < U32Limit then Some(DecimalValue(digits))
    else None
  }

  // ---------------------------------------------------------------------------
  // Trailers
  // ---------------------------------------------------------------------------

  const ChangeIdKey := "Change-Id:"

  /** The trimmed rest of the first line that starts with `Change-Id:`. */
  function ChangeIdOf(lines: seq<string>): Option<string>
    decreases |lines|
  {
    if |lines| == 0 then None
    else
      match StripPrefix(lines[0], ChangeIdKey)
      case Some(id) => Some(Trim(id))
      case None => ChangeIdOf(lines[1..])
  }

  /** The description and the change id taken from the collected body: the
      trailers follow the last blank line; a body without a blank line is
      read as trailers only when its first line looks like `Key: value`. */
  function ExtractTrailers(description: string): (string, Option<string>) {
    match RSplitOnceStr(description, "\n\n")
    case Some((text, trailers)) => (text, ChangeIdOf(Lines(trailers)))
    case None =>
      var ls := Lines(description);
      if |ls| > 0 && Contains(ls[0], ": ") then ("", ChangeIdOf(ls))
      else (description, None)
  }

  // ---------------------------------------------------------------------------
  // parse_commit
  // ---------------------------------------------------------------------------

  /** The checks after the loop, in the order the code makes them. */
  function Finish(commit: string, details: string, p: Progress): Result<ParsedCommit, RepoChangelogError> {
    match p.author
    case None => Err(ParseCommit(commit, details, NoAuthorField))
    case Some(author) =>
      match SplitAuthor(author)
      case Err(reason) => Err(ParseAuthor(author, reason))
      case Ok((name, email)) =>
        match p.commitDate
        case None => Err(ParseCommit(commit, details, NoCommitDateField))
        case Some(date) =>
          match ParseU32(date)
          case None => Err(ParseDate(date))
          case Some(seconds) =>
            var (description, changeId) := ExtractTrailers(p.description);
            Ok(ParsedCommit(name, email, seconds, p.title, description, changeId))
  }

  /** What `parse_commit(commit, details)` returns. */
  function ParsedCommitOf(commit: string, details: string): Result<ParsedCommit, RepoChangelogError> {
    match Scan(Start, BodyLines(details))
    case Err(reason) => Err(ParseCommit(commit, details, reason))
    case Ok(p) => Finish(commit, details, p)
  }

  /** `parse_commit`: the loop with its stage counter and buffers. */
  method ParseCommitText(commit: string, details: string) returns (r: Result<ParsedCommit, RepoChangelogError>)
    ensures r == ParsedCommitOf(commit, details)
  {
    var body := BodyLines(details);
    var stage := Headers;
    var author: Option<string> := None;
    var commitDate: Option<string> := None;
    var title := "";
    var description := "";
    var i := 0;
    while i < |body|
      invariant 0 <= i <= |body|
      invariant Scan(Progress(stage, author, commitDate, title, description), body[i..]) == Scan(Start, body)
    {
      var line := body[i];
      ghost var before := Progress(stage, author, commitDate, title, description);
      assert Scan(before, body[i..]) == (match Step(before, line)
        case Err(reason) => Err(reason)
        case Ok(next) => Scan(next, body[i + 1..]));
      if stage == Headers {
        if |line| == 0 {
          stage := Title;
        } else {
          var kv := SplitOnce(line, ':');
          if kv.None? {
            return Err(ParseCommit(commit, details, NoSeparator));
          }
          var key := Trim(kv.value.0);
          var value := Trim(kv.value.1);
          if key == "Author" {
            author := Some(value);
          } else if key == "CommitDate" {
            commitDate := Some(value);
          }
        }
      } else {
        var stripped := StripPrefix(line, Indent);
        if stripped.None? {
          return Err(ParseCommit(commit, details, NoIndent));
        }
        var rest := stripped.value;
        if stage == Title {
          if |rest| == 0 {
            if |title| == 0 {
              return Err(ParseCommit(commit, details, NoTitle));
            }
            stage := Body;
          } else {
            if |title| == 0 {
              title := rest;
            } else {
              title := title + " " + rest;
            }
          }
        } else {
          description := description + Trim(rest) + "\n";
        }
      }
      assert Step(before, line) == Ok(Progress(stage, author, commitDate, title, description));
      i := i + 1;
    }
    r := Finish(commit, details, Progress(stage, author, commitDate, title, description));
  }

  // ---------------------------------------------------------------------------
  // The loop over the parts of a commit text
  // ---------------------------------------------------------------------------

  /** The loop over two pieces of text: the second piece is read from where
      the first one left off, unless the first one failed. */
  lemma {:induction false} ScanAppend(p: Progress, xs: seq<string>, ys: seq<string>)
    ensures Scan(p, xs + ys) == match Scan(p, xs)
      case Err(reason) => Err(reason)
      case Ok(q) => Scan(q, ys)
    decreases |xs|
  {
    if |xs| == 0 {
      assert xs + ys == ys;
    } else {
      assert (xs + ys)[0] == xs[0];
      assert (xs + ys)[1..] == xs[1..] + ys;
      match Step(p, xs[0])
      case Err(_) =>
      case Ok(next) => ScanAppend(next, xs[1..], ys);
    }
  }

  lemma ScanOne(p: Progress, line: string)
    ensures Scan(p, [line]) == Step(p, line)
  {
    assert [line][1..] == [];
  }

  /** A header line: not empty, and with a `:` between its key and value. */
  predicate IsHeader(line: string) {
    |line| > 0 && ':' in line
  }

  /** The trimmed value of a header line whose trimmed key is `key`. */
  function HeaderValue(line: string, key: string): Option<string> {
    match SplitOnce(line, ':')
    case None => None
    case Some((k, v)) => if Trim(k) == key then Some(Trim(v)) else None
  }

  function Override<T>(older: Option<T>, newer: Option<T>): Option<T> {
    if newer.Some? then newer else older
  }

  /** The last value present. */
  function LastSome<T>(vs: seq<Option<T>>): Option<T>
    decreases |vs|
  {
    if |vs| == 0 then None else Override(LastSome(vs[..|vs| - 1]), vs[|vs| - 1])
  }

  lemma {:induction false} LastSomeNone<T>(vs: seq<Option<T>>)
    ensures LastSome(vs).None? <==> forall i :: 0 <= i < |vs| ==> vs[i].None?
    decreases |vs|
  {
    if |vs| > 0 {
      var n := |vs| - 1;
      LastSomeNone(vs[..n]);
      assert forall i :: 0 <= i < n ==> vs[..n][i] == vs[i];
    }
  }

  lemma {:induction false} LastSomeAt<T>(vs: seq<Option<T>>, i: nat)
    requires i < |vs| && vs[i].Some?
    requires forall j :: i < j < |vs| ==> vs[j].None?
    ensures LastSome(vs) == vs[i]
    decreases |vs|
  {
    if i < |vs| - 1 {
      var n := |vs| - 1;
      assert forall j :: 0 <= j < n ==> vs[..n][j] == vs[j];
      LastSomeAt(vs[..n], i);
    }
  }

  /** The value each header gives to `key`. */
  function HeaderValues(headers: seq<string>, key: string): seq<Option<string>> {
    seq(|headers|, i requires 0 <= i < |headers| => HeaderValue(headers[i], key))
  }

  /** The value of the last of `headers` that has the key `key`. */
  function LastValue(headers: seq<string>, key: string): Option<string> {
    LastSome(HeaderValues(headers, key))
  }

  lemma HeaderValueOf(key: string, value: string)
    requires ':' !in key && Trimmed(key, IsRustWhitespace)
    ensures HeaderValue(key + ":" + value, key) == Some(Trim(value))
  {
    SplitOnceOf(key, ':', value);
    TrimOfTrimmed(key);
  }

  /** A key has no value exactly when none of the headers has that key. */
  lemma LastValueNone(headers: seq<string>, key: string)
    ensures LastValue(headers, key).None? <==>
      forall i :: 0 <= i < |headers| ==> HeaderValue(headers[i], key).None?
  {
    var vs := HeaderValues(headers, key);
    LastSomeNone(vs);
    assert forall i :: 0 <= i < |headers| ==> vs[i] == HeaderValue(headers[i], key);
  }

  /** The value of a key comes from the last header that has it. */
  lemma LastValueAt(headers: seq<string>, key: string, i: nat)
    requires i < |headers| && HeaderValue(headers[i], key).Some?
    requires forall j :: i < j < |headers| ==> HeaderValue(headers[j], key).None?
    ensures LastValue(headers, key) == HeaderValue(headers[i], key)
  {
    LastSomeAt(HeaderValues(headers, key), i);
  }

  lemma LastValueSnoc(headers: seq<string>, line: string, key: string)
    ensures LastValue(headers + [line], key) == Override(LastValue(headers, key), HeaderValue(line, key))
  {
    var vs := HeaderValues(headers + [line], key);
    assert vs[..|headers|] == HeaderValues(headers, key);
  }

  lemma StepHeader(p: Progress, line: string)
    requires p.stage == Headers && IsHeader(line)
    ensures Step(p, line) == Ok(p.(author := Override(p.author, HeaderValue(line, "Author")),
                                   commitDate := Override(p.commitDate, HeaderValue(line, "CommitDate"))))
  {
  }

  /** Reading header lines keeps, for `Author` and `CommitDate`, the value
      of the last line with that key. */
  lemma {:induction false} ScanHeaders(p: Progress, headers: seq<string>)
    requires p.stage == Headers
    requires forall i :: 0 <= i < |headers| ==> IsHeader(headers[i])
    ensures Scan(p, headers) == Ok(p.(author := Override(p.author, LastValue(headers, "Author")),
                                      commitDate := Override(p.commitDate, LastValue(headers, "CommitDate"))))
    decreases |headers|
  {
    if |headers| == 0 {
    } else {
      var init := headers[..|headers| - 1];
      var last := headers[|headers| - 1];
      assert headers == init + [last];
      assert forall i :: 0 <= i < |init| ==> init[i] == headers[i];
      ScanAppend(p, init, [last]);
      ScanHeaders(p, init);
      LastValueSnoc(init, last, "Author");
      LastValueSnoc(init, last, "CommitDate");
      var q := p.(author := Override(p.author, LastValue(init, "Author")),
                  commitDate := Override(p.commitDate, LastValue(init, "CommitDate")));
      ScanOne(q, last);
      StepHeader(q, last);
    }
  }

  /** The indented lines of a title or a body, as git prints them. */
  function Indented(ls: seq<string>): seq<string> {
    seq(|ls|, i requires 0 <= i < |ls| => Indent + ls[i])
  }

  lemma IndentedSnoc(ls: seq<string>, l: string)
    ensures Indented(ls + [l]) == Indented(ls) + [Indent + l]
  {
  }

  lemma AllPlainIndented(ls: seq<string>)
    requires AllPlain(ls)
    ensures AllPlain(Indented(ls))
  {
    forall i | 0 <= i < |ls| ensures PlainLine(Indented(ls)[i]) {
      var l := Indented(ls)[i];
      assert l == Indent + ls[i];
      assert '\n' !in l;
      if |ls[i]| > 0 {
        assert l[|l| - 1] == ls[i][|ls[i]| - 1];
      }
    }
  }

  /** Reading the title lines joins them with single spaces. */
  lemma {:induction false} ScanTitle(p: Progress, titles: seq<string>)
    requires p.stage == Title && |p.title| == 0
    requires forall i :: 0 <= i < |titles| ==> |titles[i]| > 0
    ensures Scan(p, Indented(titles)) == Ok(p.(title := Join(titles, " ")))
    decreases |titles|
  {
    if |titles| == 0 {
    } else {
      var init := titles[..|titles| - 1];
      var last := titles[|titles| - 1];
      assert titles == init + [last];
      assert forall i :: 0 <= i < |init| ==> init[i] == titles[i];
      IndentedSnoc(init, last);
      ScanAppend(p, Indented(init), [Indent + last]);
      ScanTitle(p, init);
      var q := p.(title := Join(init, " "));
      ScanOne(q, Indent + last);
      StripPrefixOf(Indent, last);
      JoinSnoc(init, last, " ");
      JoinEmpty(init, " ");
    }
  }

  /** Each line trimmed: what the body keeps of its lines. */
  function Trims(ls: seq<string>): seq<string> {
    seq(|ls|, i requires 0 <= i < |ls| => Trim(ls[i]))
  }

  lemma StepBody(p: Progress, line: string)
    requires p.stage == Body
    ensures Step(p, Indent + line) == Ok(p.(description := p.description + Trim(line) + "\n"))
  {
    StripPrefixOf(Indent, line);
  }

  lemma DescriptionSnoc(d: string, init: seq<string>, last: string)
    ensures d + Terminated(Trims(init + [last])) == d + Terminated(Trims(init)) + Trim(last) + "\n"
  {
    var ts, t := Trims(init), Trim(last);
    assert Trims(init + [last]) == ts + [t];
    TerminatedAppend(ts, [t]);
    assert Terminated([t]) == t + "\n";
    Regroup(d, Terminated(ts), t + "\n");
  }

  lemma Regroup(a: string, b: string, c: string)
    ensures a + (b + c) == a + b + c
  {
  }

  /** Reading body lines adds each line, trimmed and terminated, to the
      description. */
  lemma {:induction false} ScanBody(p: Progress, body: seq<string>)
    requires p.stage == Body
    ensures Scan(p, Indented(body)) == Ok(p.(description := p.description + Terminated(Trims(body))))
    decreases |body|
  {
    if |body| == 0 {
      assert p.description + Terminated(Trims(body)) == p.description;
    } else {
      var init := body[..|body| - 1];
      var last := body[|body| - 1];
      assert body == init + [last];
      IndentedSnoc(init, last);
      ScanAppend(p, Indented(init), [Indent + last]);
      ScanBody(p, init);
      var q := p.(description := p.description + Terminated(Trims(init)));
      ScanOne(q, Indent + last);
      StepBody(q, last);
      DescriptionSnoc(p.description, init, last);
    }
  }

  // ---------------------------------------------------------------------------
  // Well-formed commit texts
  // ---------------------------------------------------------------------------

  predicate AllHeaders(headers: seq<string>) {
    forall i :: 0 <= i < |headers| ==> IsHeader(headers[i])
  }

  /** Title fragments are not empty: an empty one ends the title. */
  predicate AllFragments(titles: seq<string>) {
    forall i :: 0 <= i < |titles| ==> |titles[i]| > 0
  }

  /** The text git prints for one commit: the `commit` line, the header
      lines, an empty line, the title lines, a blank indented line and the
      body lines, title and body indented by four spaces, every line ended
      by a line break. */
  function CommitText(first: string, headers: seq<string>, titles: seq<string>, body: seq<string>): string {
    Terminated([first] + CommitLines(headers, titles, body))
  }

  /** The lines after the `commit` line. */
  function CommitLines(headers: seq<string>, titles: seq<string>, body: seq<string>): seq<string> {
    headers + ([""] + (Indented(titles) + ([Indent] + Indented(body))))
  }

  predicate WellFormed(first: string, headers: seq<string>, titles: seq<string>, body: seq<string>) {
    && PlainLine(first)
    && AllPlain(headers) && AllHeaders(headers)
    && |titles| > 0 && AllPlain(titles) && AllFragments(titles)
    && AllPlain(body)
  }

  /** The loop's variables once the headers are read. */
  function AfterHeaders(headers: seq<string>): Progress {
    Progress(Headers, LastValue(headers, "Author"), LastValue(headers, "CommitDate"), "", "")
  }

  lemma ConsTail<T>(a: T, xs: seq<T>, ys: seq<T>)
    ensures ([a] + xs + ys)[1..] == xs + ys
  {
  }

  /** The lines the loop reads from a text of plain lines and a remainder. */
  lemma BodyLinesOf(first: string, rest: seq<string>, x: string)
    requires PlainLine(first) && AllPlain(rest)
    ensures BodyLines(Terminated([first] + rest) + x) == rest + Lines(x)
  {
    AllPlainAppend([first], rest);
    LinesAfter([first] + rest, x);
    ConsTail(first, rest, Lines(x));
  }

  lemma ScanToTitle(headers: seq<string>, tail: seq<string>)
    requires AllHeaders(headers)
    ensures Scan(Start, headers + ([""] + tail)) == Scan(AfterHeaders(headers).(stage := Title), tail)
  {
    var q := AfterHeaders(headers);
    ScanAppend(Start, headers, [""] + tail);
    ScanHeaders(Start, headers);
    assert Scan(Start, headers) == Ok(q);
    ScanAppend(q, [""], tail);
    ScanOne(q, "");
  }

  lemma ScanThroughTitle(q: Progress, titles: seq<string>, tail: seq<string>)
    requires q.stage == Title && |q.title| == 0 && AllFragments(titles)
    ensures Scan(q, Indented(titles) + tail) == Scan(q.(title := Join(titles, " ")), tail)
  {
    ScanAppend(q, Indented(titles), tail);
    ScanTitle(q, titles);
  }

  lemma ScanTitleEnd(q: Progress, tail: seq<string>)
    requires q.stage == Title && |q.title| > 0
    ensures Scan(q, [Indent] + tail) == Scan(q.(stage := Body), tail)
  {
    StripPrefixOf(Indent, "");
    assert Indent + "" == Indent;
    ScanAppend(q, [Indent], tail);
    ScanOne(q, Indent);
  }

  lemma ScanCommitLines(headers: seq<string>, titles: seq<string>, body: seq<string>)
    requires AllHeaders(headers) && |titles| > 0 && AllFragments(titles)
    ensures Scan(Start, CommitLines(headers, titles, body)) ==
      Ok(Progress(Body, LastValue(headers, "Author"), LastValue(headers, "CommitDate"),
                  Join(titles, " "), Terminated(Trims(body))))
  {
    var t3 := [Indent] + Indented(body);
    ScanToTitle(headers, Indented(titles) + t3);
    var q := AfterHeaders(headers).(stage := Title);
    ScanThroughTitle(q, titles, t3);
    JoinEmpty(titles, " ");
    ScanTitleEnd(q.(title := Join(titles, " ")), Indented(body));
    ScanBody(q.(title := Join(titles, " "), stage := Body), body);
    assert "" + Terminated(Trims(body)) == Terminated(Trims(body));
  }

  lemma AllPlainCommitLines(headers: seq<string>, titles: seq<string>, body: seq<string>)
    requires AllPlain(headers) && AllPlain(titles) && AllPlain(body)
    ensures AllPlain(CommitLines(headers, titles, body))
  {
    var t3 := [Indent] + Indented(body);
    var t2 := Indented(titles) + t3;
    AllPlainIndented(titles);
    AllPlainIndented(body);
    assert AllPlain([Indent]) && AllPlain([""]);
    AllPlainAppend([Indent], Indented(body));
    AllPlainAppend(Indented(titles), t3);
    AllPlainAppend([""], t2);
    AllPlainAppend(headers, [""] + t2);
  }

  /** The loop over a well-formed text: the last `Author` and `CommitDate`
      headers, the title lines joined by spaces, the body lines trimmed. */
  lemma ScanCommitText(first: string, headers: seq<string>, titles: seq<string>, body: seq<string>)
    requires WellFormed(first, headers, titles, body)
    ensures Scan(Start, BodyLines(CommitText(first, headers, titles, body))) ==
      Ok(Progress(Body, LastValue(headers, "Author"), LastValue(headers, "CommitDate"),
                  Join(titles, " "), Terminated(Trims(body))))
  {
    var rest := CommitLines(headers, titles, body);
    AllPlainCommitLines(headers, titles, body);
    BodyLinesOf(first, rest, "");
    assert Terminated([first] + rest) + "" == Terminated([first] + rest);
    assert rest + Lines("") == rest;
    ScanCommitLines(headers, titles, body);
  }

  /** A well-formed text with a valid author and date: the commit's fields
      as the loop collected them, with the trailers taken off the body. */
  lemma ParseWellFormed(commit: string, first: string, headers: seq<string>, titles: seq<string>, body: seq<string>,
                        author: string, name: string, email: string, date: string, seconds: nat)
    requires WellFormed(first, headers, titles, body)
    requires LastValue(headers, "Author") == Some(author) && SplitAuthor(author) == Ok((name, email))
    requires LastValue(headers, "CommitDate") == Some(date) && ParseU32(date) == Some(seconds)
    ensures ParsedCommitOf(commit, CommitText(first, headers, titles, body)) ==
      var (description, changeId) := ExtractTrailers(Terminated(Trims(body)));
      Ok(ParsedCommit(name, email, seconds, Join(titles, " "), description, changeId))
  {
    ScanCommitText(first, headers, titles, body);
  }

  /** The checks after the loop, in order: the author must be present, then
      splittable, then the date present, then a `u32`. */
  lemma WellFormedErrors(commit: string, first: string, headers: seq<string>, titles: seq<string>, body: seq<string>)
    requires WellFormed(first, headers, titles, body)
    ensures var details := CommitText(first, headers, titles, body);
      var author := LastValue(headers, "Author");
      var date := LastValue(headers, "CommitDate");
      && (author.None? ==>
            ParsedCommitOf(commit, details) == Err(ParseCommit(commit, details, NoAuthorField)))
      && (author.Some? && SplitAuthor(author.value).Err? ==>
            ParsedCommitOf(commit, details) == Err(ParseAuthor(author.value, SplitAuthor(author.value).error)))
      && (author.Some? && SplitAuthor(author.value).Ok? && date.None? ==>
            ParsedCommitOf(commit, details) == Err(ParseCommit(commit, details, NoCommitDateField)))
      && (author.Some? && SplitAuthor(author.value).Ok? && date.Some? && ParseU32(date.value).None? ==>
            ParsedCommitOf(commit, details) == Err(ParseDate(date.value)))
  {
    ScanCommitText(first, headers, titles, body);
  }

  /** An error in the lines before a remainder is the error of the whole
      text, whatever the remainder holds. */
  lemma ErrorPersists(commit: string, first: string, rest: seq<string>, x: string, reason: CommitReason)
    requires PlainLine(first) && AllPlain(rest)
    requires Scan(Start, rest) == Err(reason)
    ensures var details := Terminated([first] + rest) + x;
      ParsedCommitOf(commit, details) == Err(ParseCommit(commit, details, reason))
  {
    BodyLinesOf(first, rest, x);
    ScanAppend(Start, rest, Lines(x));
  }

  lemma ScanMissingSeparator(headers: seq<string>, bad: string)
    requires AllHeaders(headers) && |bad| > 0 && ':' !in bad
    ensures Scan(Start, headers + [bad]) == Err(NoSeparator)
  {
    ScanAppend(Start, headers, [bad]);
    ScanHeaders(Start, headers);
    ScanOne(AfterHeaders(headers), bad);
  }

  /** A header line without `:` is an error, whatever follows. */
  lemma MissingSeparator(commit: string, first: string, headers: seq<string>, bad: string, x: string)
    requires PlainLine(first) && AllPlain(headers) && AllHeaders(headers)
    requires PlainLine(bad) && |bad| > 0 && ':' !in bad
    ensures var details := Terminated([first] + (headers + [bad])) + x;
      ParsedCommitOf(commit, details) == Err(ParseCommit(commit, details, NoSeparator))
  {
    assert AllPlain([bad]);
    AllPlainAppend(headers, [bad]);
    ScanMissingSeparator(headers, bad);
    ErrorPersists(commit, first, headers + [bad], x, NoSeparator);
  }

  lemma ScanMissingTitle(headers: seq<string>)
    requires AllHeaders(headers)
    ensures Scan(Start, headers + ["", Indent]) == Err(NoTitle)
  {
    assert headers + ["", Indent] == headers + ([""] + [Indent]);
    ScanToTitle(headers, [Indent]);
    ScanOne(AfterHeaders(headers).(stage := Title), Indent);
    StripPrefixOf(Indent, "");
    assert Indent + "" == Indent;
  }

  /** A blank indented line before any title line is an error, whatever
      follows. */
  lemma MissingTitle(commit: string, first: string, headers: seq<string>, x: string)
    requires PlainLine(first) && AllPlain(headers) && AllHeaders(headers)
    ensures var details := Terminated([first] + (headers + ["", Indent])) + x;
      ParsedCommitOf(commit, details) == Err(ParseCommit(commit, details, NoTitle))
  {
    assert AllPlain(["", Indent]);
    AllPlainAppend(headers, ["", Indent]);
    ScanMissingTitle(headers);
    ErrorPersists(commit, first, headers + ["", Indent], x, NoTitle);
  }

  lemma ScanUnindentedTitleLine(headers: seq<string>, titles: seq<string>, bad: string)
    requires AllHeaders(headers) && AllFragments(titles) && !StartsWith(bad, Indent)
    ensures Scan(Start, headers + ([""] + (Indented(titles) + [bad]))) == Err(NoIndent)
  {
    ScanToTitle(headers, Indented(titles) + [bad]);
    var q := AfterHeaders(headers).(stage := Title);
    ScanThroughTitle(q, titles, [bad]);
    ScanOne(q.(title := Join(titles, " ")), bad);
  }

  /** After the headers, a line that does not start with four spaces is an
      error, whatever follows. */
  lemma UnindentedTitleLine(commit: string, first: string, headers: seq<string>, titles: seq<string>, bad: string, x: string)
    requires PlainLine(first) && AllPlain(headers) && AllHeaders(headers)
    requires AllPlain(titles) && AllFragments(titles)
    requires PlainLine(bad) && !StartsWith(bad, Indent)
    ensures var details := Terminated([first] + (headers + ([""] + (Indented(titles) + [bad])))) + x;
      ParsedCommitOf(commit, details) == Err(ParseCommit(commit, details, NoIndent))
  {
    var t2 := Indented(titles) + [bad];
    AllPlainIndented(titles);
    assert AllPlain([bad]) && AllPlain([""]);
    AllPlainAppend(Indented(titles), [bad]);
    AllPlainAppend([""], t2);
    AllPlainAppend(headers, [""] + t2);
    ScanUnindentedTitleLine(headers, titles, bad);
    ErrorPersists(commit, first, headers + ([""] + t2), x, NoIndent);
  }

  lemma ScanUnindentedBodyLine(headers: seq<string>, titles: seq<string>, body: seq<string>, bad: string)
    requires AllHeaders(headers) && |titles| > 0 && AllFragments(titles) && !StartsWith(bad, Indent)
    ensures Scan(Start, headers + ([""] + (Indented(titles) + ([Indent] + (Indented(body) + [bad]))))) == Err(NoIndent)
  {
    var tail := Indented(body) + [bad];
    ScanToTitle(headers, Indented(titles) + ([Indent] + tail));
    var q := AfterHeaders(headers).(stage := Title);
    ScanThroughTitle(q, titles, [Indent] + tail);
    JoinEmpty(titles, " ");
    ScanTitleEnd(q.(title := Join(titles, " ")), tail);
    var b := q.(title := Join(titles, " "), stage := Body);
    ScanAppend(b, Indented(body), [bad]);
    ScanBody(b, body);
    ScanOne(b.(description := b.description + Terminated(Trims(body))), bad);
  }

  /** In the body, a line that does not start with four spaces is an error,
      whatever follows. */
  lemma UnindentedBodyLine(commit: string, first: string, headers: seq<string>, titles: seq<string>, body: seq<string>,
                           bad: string, x: string)
    requires WellFormed(first, headers, titles, body)
    requires PlainLine(bad) && !StartsWith(bad, Indent)
    ensures var details := Terminated([first] + (headers + ([""] + (Indented(titles) + ([Indent] + (Indented(body) + [bad])))))) + x;
      ParsedCommitOf(commit, details) == Err(ParseCommit(commit, details, NoIndent))
  {
    var t3 := [Indent] + (Indented(body) + [bad]);
    var t2 := Indented(titles) + t3;
    AllPlainIndented(titles);
    AllPlainIndented(body);
    assert AllPlain([Indent]) && AllPlain([""]) && AllPlain([bad]);
    AllPlainAppend(Indented(body), [bad]);
    AllPlainAppend([Indent], Indented(body) + [bad]);
    AllPlainAppend(Indented(titles), t3);
    AllPlainAppend([""], t2);
    AllPlainAppend(headers, [""] + t2);
    ScanUnindentedBodyLine(headers, titles, body, bad);
    ErrorPersists(commit, first, headers + ([""] + t2), x, NoIndent);
  }

  /** A text that ends before the blank indented line is accepted: the
      title is what was read of it, possibly nothing, and the body is
      empty. */
  lemma ParseWithoutBody(commit: string, first: string, headers: seq<string>, titles: seq<string>,
                         author: string, name: string, email: string, date: string, seconds: nat)
    requires PlainLine(first) && AllPlain(headers) && AllHeaders(headers)
    requires AllPlain(titles) && AllFragments(titles)
    requires LastValue(headers, "Author") == Some(author) && SplitAuthor(author) == Ok((name, email))
    requires LastValue(headers, "CommitDate") == Some(date) && ParseU32(date) == Some(seconds)
    ensures ParsedCommitOf(commit, Terminated([first] + (headers + ([""] + Indented(titles))))) ==
      Ok(ParsedCommit(name, email, seconds, Join(titles, " "), "", None))
  {
    ScanWithoutBody(first, headers, titles);
    assert RSplitOnceStr("", "\n\n").None? by {
      NotContainsHead("", "\n\n");
    }
  }

  lemma ScanWithoutBody(first: string, headers: seq<string>, titles: seq<string>)
    requires PlainLine(first) && AllPlain(headers) && AllHeaders(headers)
    requires AllPlain(titles) && AllFragments(titles)
    ensures Scan(Start, BodyLines(Terminated([first] + (headers + ([""] + Indented(titles)))))) ==
      Ok(AfterHeaders(headers).(stage := Title, title := Join(titles, " ")))
  {
    var rest := headers + ([""] + Indented(titles));
    AllPlainIndented(titles);
    assert AllPlain([""]);
    AllPlainAppend([""], Indented(titles));
    AllPlainAppend(headers, [""] + Indented(titles));
    BodyLinesOf(first, rest, "");
    assert Terminated([first] + rest) + "" == Terminated([first] + rest);
    assert rest + Lines("") == rest;
    ScanTitleOnly(headers, titles);
  }

  lemma ScanTitleOnly(headers: seq<string>, titles: seq<string>)
    requires AllHeaders(headers) && AllFragments(titles)
    ensures Scan(Start, headers + ([""] + Indented(titles))) ==
      Ok(AfterHeaders(headers).(stage := Title, title := Join(titles, " ")))
  {
    assert Indented(titles) == Indented(titles) + [];
    ScanToTitle(headers, Indented(titles));
    ScanThroughTitle(AfterHeaders(headers).(stage := Title), titles, []);
  }

  // ---------------------------------------------------------------------------
  // Properties of the author, date and trailer parsing
  // ---------------------------------------------------------------------------

  /** `Name <email>` with a space-free email splits back into its parts. */
  lemma SplitAuthorOf(name: string, email: string)
    requires ' ' !in email
    ensures SplitAuthor(name + " <" + email + ">") == Ok((name, email))
  {
    var rest := "<" + email + ">";
    assert ' ' !in rest;
    assert name + " <" + email + ">" == name + [' '] + rest;
    RSplitOnceOf(name, ' ', rest);
    StripPrefixOf("<", email + ">");
    assert rest == "<" + (email + ">");
    StripSuffixOf(email, ">");
  }

  /** Every author that splits is `Name <email>` with a space-free email. */
  lemma SplitAuthorShape(author: string)
    requires SplitAuthor(author).Ok?
    ensures author == SplitAuthor(author).value.0 + " <" + SplitAuthor(author).value.1 + ">"
    ensures ' ' !in SplitAuthor(author).value.1
  {
    var parts := RSplitOnce(author, ' ').value;
    var bracketed := StripPrefix(parts.1, "<").value;
    var email := StripSuffix(bracketed, ">").value;
    assert SplitAuthor(author).value == (parts.0, email);
    AuthorParts(author, parts.0, parts.1, bracketed, email);
  }

  lemma AuthorParts(author: string, name: string, rest: string, bracketed: string, email: string)
    requires author == name + [' '] + rest && ' ' !in rest
    requires rest == "<" + bracketed && bracketed == email + ">"
    ensures author == name + " <" + email + ">" && ' ' !in email
  {
    assert rest == "<" + email + ">";
    forall k | 0 <= k < |email| ensures email[k] != ' ' {
      assert email[k] == rest[k + 1];
    }
  }

  function DigitChar(d: nat): char
    requires d < 10
  {
    (d + '0' as int) as char
  }

  /** The decimal digits of `n`, without leading zeros. */
  function Decimal(n: nat): (s: string)
    ensures |s| > 0 && AllDigits(s)
    decreases n
  {
    if n < 10 then [DigitChar(n)] else Decimal(n / 10) + [DigitChar(n % 10)]
  }

  lemma {:induction false} DecimalValueOf(n: nat)
    ensures DecimalValue(Decimal(n)) == n
    decreases n
  {
    if n >= 10 {
      var s := Decimal(n);
      assert s[..|s| - 1] == Decimal(n / 10);
      DecimalValueOf(n / 10);
    }
  }

  /** The decimal digits of a number parse back to it exactly when it fits
      in 32 bits; a leading `+` is accepted. */
  lemma ParseDecimal(n: nat)
    ensures ParseU32(Decimal(n)) == if n < U32Limit then Some(n) else None
    ensures ParseU32("+" + Decimal(n)) == ParseU32(Decimal(n))
  {
    DecimalValueOf(n);
    assert ("+" + Decimal(n))[1..] == Decimal(n);
  }

  /** An empty date, a sign alone, a minus sign or any other character is
      rejected. */
  lemma ParseU32Rejects(s: string)
    ensures ParseU32("") == None && ParseU32("+") == None
    ensures (exists k :: 0 <= k < |s| && !IsDigit(s[k])) && (|s| == 0 || s[0] != '+') ==> ParseU32(s) == None
  {
    assert "+"[1..] == "";
  }

  /** The trailers follow the last blank line: the text in front of it is
      the description, the change id is taken from the trailer lines. */
  lemma TrailersAfterBlankLine(text: string, trailers: string)
    requires !Contains(trailers, "\n\n") && !StartsWith(trailers, "\n")
    ensures ExtractTrailers(text + "\n\n" + trailers) == (text, ChangeIdOf(Lines(trailers)))
  {
    var s := text + "\n\n" + trailers;
    forall j: nat | |text| < j ensures !MatchAt(s, "\n\n", j) {
      if j + 2 <= |s| {
        if j == |text| + 1 {
          assert |trailers| > 0 ==> s[j + 1] == trailers[0];
          assert |trailers| > 0 ==> trailers[..1] == [trailers[0]];
        } else {
          var k := j - |text| - 2;
          assert s[j..j + 2] == trailers[k..k + 2];
          assert !MatchAt(trailers, "\n\n", k);
        }
      }
    }
    RSplitOnceStrOf(text, "\n\n", trailers);
  }

  /** The change id is the trimmed rest of the first line that starts with
      `Change-Id:`. */
  lemma {:induction false} ChangeIdFirst(before: seq<string>, value: string, after: seq<string>)
    requires forall i :: 0 <= i < |before| ==> !StartsWith(before[i], ChangeIdKey)
    ensures ChangeIdOf(before + [ChangeIdKey + value] + after) == Some(Trim(value))
    decreases |before|
  {
    var ls := before + [ChangeIdKey + value] + after;
    if |before| == 0 {
      assert ls[0] == ChangeIdKey + value;
      StripPrefixOf(ChangeIdKey, value);
    } else {
      assert ls[0] == before[0];
      assert ls[1..] == before[1..] + [ChangeIdKey + value] + after;
      ChangeIdFirst(before[1..], value, after);
    }
  }

  /** There is no change id exactly when no line starts with `Change-Id:`. */
  lemma {:induction false} ChangeIdAbsent(lines: seq<string>)
    ensures ChangeIdOf(lines).None? <==> forall i :: 0 <= i < |lines| ==> !StartsWith(lines[i], ChangeIdKey)
    decreases |lines|
  {
    if |lines| > 0 {
      ChangeIdAbsent(lines[1..]);
      assert forall i :: 1 <= i < |lines| ==> lines[1..][i - 1] == lines[i];
    }
  }

  /** The commit date of the unit tests parses; the date of
      `test_parse_commit_invalid_date` does not. */
  lemma TestDates()
    ensures ParseU32("1751211480") == Some(1751211480)
    ensures ParseU32("not_a_date") == None
  {
    assert Decimal(1) == "1";
    assert Decimal(17) == "17";
    assert Decimal(175) == "175";
    assert Decimal(1751) == "1751";
    assert Decimal(17512) == "17512";
    assert Decimal(175121) == "175121";
    assert Decimal(1751211) == "1751211";
    assert Decimal(17512114) == "17512114";
    assert Decimal(175121148) == "175121148";
    assert Decimal(1751211480) == "1751211480";
    ParseDecimal(1751211480);
    assert !IsDigit("not_a_date"[0]);
    ParseU32Rejects("not_a_date");
  }

  /** A body without a blank line whose first line has no `: ` is kept as
      it is, without a change id. */
  lemma ParagraphKept(description: string)
    requires !Contains(description, "\n\n")
    requires |Lines(description)| == 0 || !Contains(Lines(description)[0], ": ")
    ensures ExtractTrailers(description) == (description, None)
  {
  }

  /** A body without a blank line whose first line contains `: ` is read as
      trailers only: the description is empty. */
  lemma ParagraphAsTrailers(description: string)
    requires !Contains(description, "\n\n")
    requires |Lines(description)| > 0 && Contains(Lines(description)[0], ": ")
    ensures ExtractTrailers(description) == ("", ChangeIdOf(Lines(description)))
  {
  }

  /** `test_parse_commit_no_trailers`: one body line without `:` is the
      whole description, followed by its line break. */
  lemma SingleBodyLine(line: string)
    requires '\n' !in line && ':' !in line
    ensures ExtractTrailers(line + "\n") == (line + "\n", None)
  {
    NoBlankLine(line);
    LinesCons(line, "");
    assert Lines(line + "\n") == [DropCR(line)];
    assert ':' !in DropCR(line);
    NotContainsHead(DropCR(line), ": ");
    ParagraphKept(line + "\n");
  }

  // ---------------------------------------------------------------------------
  // generate_repo_changelog
  // ---------------------------------------------------------------------------

  /** `output2string`: the standard output of a command that ran and
      succeeded. */
  function OutputText(run: Run): (r: Result<string, RepoChangelogError>)
    ensures r.Ok? <==> run.Ran? && run.output.success
    ensures r.Ok? ==> r.value == run.output.stdout
    ensures run.Failed? ==> r == Err(CommandExecution)
    ensures run.Ran? && !run.output.success ==> r == Err(Git(run.output.stderr))
  {
    match run
    case Failed => Err(CommandExecution)
    case Ran(output) => if output.success then Ok(output.stdout) else Err(Git(output.stderr))
  }

  /** The trimmed lines of a query's output: one commit id per line. */
  function CommitIds(text: string): seq<string> {
    Trims(Lines(text))
  }

  /** The merge commits, as a set. */
  function MergeSet(text: string): set<string> {
    set c | c in CommitIds(text)
  }

  /** The change of one first-parent commit: its parsed fields, tagged
      `Merge` when the commit is one of the merge commits. */
  function ChangeFor(repo: string, merges: set<string>, show: string -> Run, commit: string): Result<Change, RepoChangelogError> {
    var details :- OutputText(show(commit));
    var parsed :- ParsedCommitOf(commit, details);
    Ok(Change(if commit in merges then Merge else Normal, repo, parsed.title, parsed.description,
              parsed.authorName, parsed.authorEmail, parsed.commitDate, parsed.changeId, commit))
  }

  /** The changes of `commits`, in order; the first failure aborts. */
  function ChangesOf(repo: string, merges: set<string>, show: string -> Run, commits: seq<string>): Result<seq<Change>, RepoChangelogError> {
    Collect(commit => ChangeFor(repo, merges, show, commit), commits)
  }

  /** `f` applied to each commit in order; the first failure aborts. */
  function Collect(f: string -> Result<Change, RepoChangelogError>, commits: seq<string>): Result<seq<Change>, RepoChangelogError>
    decreases |commits|
  {
    if |commits| == 0 then Ok([])
    else
      var change :- f(commits[0]);
      var rest :- Collect(f, commits[1..]);
      Ok([change] + rest)
  }

  lemma {:induction false} CollectShape(f: string -> Result<Change, RepoChangelogError>, commits: seq<string>)
    ensures Collect(f, commits).Ok? <==> forall i :: 0 <= i < |commits| ==> f(commits[i]).Ok?
    ensures Collect(f, commits).Ok? ==>
      |Collect(f, commits).value| == |commits| &&
      forall i :: 0 <= i < |commits| ==> Collect(f, commits).value[i] == f(commits[i]).value
    decreases |commits|
  {
    if |commits| > 0 {
      CollectShape(f, commits[1..]);
      assert forall i :: 1 <= i < |commits| ==> commits[1..][i - 1] == commits[i];
    }
  }

  /** `generate_repo_changelog(source, target, repo, top)`: `merged` and
      `firstParent` are the results of `git rev-list --min-parents=2` and
      `git rev-list --first-parent` over `source..target`, and `show` gives
      the result of `git show` for a commit. */
  function RepoChangelogOf(repo: string, merged: Run, firstParent: Run, show: string -> Run): Result<RepoChangeLog, RepoChangelogError> {
    var mergeText :- OutputText(merged);
    var listText :- OutputText(firstParent);
    var logs :- ChangesOf(repo, MergeSet(mergeText), show, CommitIds(listText));
    Ok(RepoChangeLog(logs))
  }

  /** `prefix` in front of the changes of a successful rest. */
  function After(prefix: seq<Change>, rest: Result<seq<Change>, RepoChangelogError>): Result<seq<Change>, RepoChangelogError> {
    match rest
    case Err(e) => Err(e)
    case Ok(changes) => Ok(prefix + changes)
  }

  lemma AfterNothing(r: Result<seq<Change>, RepoChangelogError>)
    ensures After([], r) == r
  {
    if r.Ok? {
      assert [] + r.value == r.value;
    }
  }

  /** A failure for the first commit is the failure of the whole list. */
  lemma ChangesOfFails(repo: string, merges: set<string>, show: string -> Run, commits: seq<string>)
    requires |commits| > 0 && ChangeFor(repo, merges, show, commits[0]).Err?
    ensures ChangesOf(repo, merges, show, commits) == Err(ChangeFor(repo, merges, show, commits[0]).error)
  {
  }

  lemma ChangesOfStep(repo: string, merges: set<string>, show: string -> Run, commits: seq<string>, i: nat,
                      logs: seq<Change>, change: Change)
    requires i < |commits| && ChangeFor(repo, merges, show, commits[i]) == Ok(change)
    ensures After(logs, ChangesOf(repo, merges, show, commits[i..])) ==
            After(logs + [change], ChangesOf(repo, merges, show, commits[i + 1..]))
  {
    assert commits[i..][0] == commits[i];
    assert commits[i..][1..] == commits[i + 1..];
    match ChangesOf(repo, merges, show, commits[i + 1..]) {
      case Err(_) =>
      case Ok(rest) => assert logs + ([change] + rest) == (logs + [change]) + rest;
    }
  }

  /** The loop of `generate_repo_changelog`, one `git show` and one parse
      per first-parent commit. */
  method GenerateRepoChangelog(repo: string, merged: Run, firstParent: Run, show: string -> Run)
    returns (r: Result<RepoChangeLog, RepoChangelogError>)
    ensures r == RepoChangelogOf(repo, merged, firstParent, show)
  {
    var mergeText := OutputText(merged);
    if mergeText.Err? {
      return Err(mergeText.error);
    }
    var merges := MergeSet(mergeText.value);
    var listText := OutputText(firstParent);
    if listText.Err? {
      return Err(listText.error);
    }
    var commits := CommitIds(listText.value);
    var logs: seq<Change> := [];
    var i := 0;
    assert commits[i..] == commits;
    AfterNothing(ChangesOf(repo, merges, show, commits));
    while i < |commits|
      invariant 0 <= i <= |commits|
      invariant ChangesOf(repo, merges, show, commits) == After(logs, ChangesOf(repo, merges, show, commits[i..]))
    {
      var commit := commits[i];
      var details := OutputText(show(commit));
      if details.Err? {
        ChangesOfFails(repo, merges, show, commits[i..]);
        return Err(details.error);
      }
      var parsed := ParseCommitText(commit, details.value);
      if parsed.Err? {
        ChangesOfFails(repo, merges, show, commits[i..]);
        return Err(parsed.error);
      }
      var kind := if commit in merges then Merge else Normal;
      var p := parsed.value;
      var change := Change(kind, repo, p.title, p.description, p.authorName, p.authorEmail, p.commitDate, p.changeId, commit);
      ChangesOfStep(repo, merges, show, commits, i, logs, change);
      logs := logs + [change];
      i := i + 1;
    }
    assert commits[i..] == [];
    assert logs + [] == logs;
    return Ok(RepoChangeLog(logs));
  }

  /** The fields a change takes from its parsed commit. */
  function ParsedFields(c: Change): ParsedCommit {
    ParsedCommit(c.authorName, c.authorEmail, c.datetime, c.title, c.description, c.changeId)
  }

  /** `git show` ran and succeeded for the commit, and its text parses. */
  predicate Shows(show: string -> Run, commit: string) {
    OutputText(show(commit)).Ok? && ParsedCommitOf(commit, OutputText(show(commit)).value).Ok?
  }

  /** The change of a commit: the commit and the repository copied, `Merge`
      exactly for merge commits, the rest parsed from `git show`. */
  lemma ChangeForFields(repo: string, merges: set<string>, show: string -> Run, commit: string)
    ensures ChangeFor(repo, merges, show, commit).Ok? <==> Shows(show, commit)
    ensures ChangeFor(repo, merges, show, commit).Ok? ==>
      var c := ChangeFor(repo, merges, show, commit).value;
      && c.commit == commit && c.repo == repo
      && (c.kind == Merge <==> commit in merges)
      && Ok(ParsedFields(c)) == ParsedCommitOf(commit, show(commit).output.stdout)
  {
  }

  /** The list succeeds exactly when every commit does, and then holds one
      change per commit, in order. */
  lemma ChangesOfShape(repo: string, merges: set<string>, show: string -> Run, commits: seq<string>)
    ensures ChangesOf(repo, merges, show, commits).Ok? <==>
      forall i :: 0 <= i < |commits| ==> ChangeFor(repo, merges, show, commits[i]).Ok?
    ensures ChangesOf(repo, merges, show, commits).Ok? ==>
      var logs := ChangesOf(repo, merges, show, commits).value;
      |logs| == |commits| &&
      forall i :: 0 <= i < |commits| ==> logs[i] == ChangeFor(repo, merges, show, commits[i]).value
  {
    CollectShape(commit => ChangeFor(repo, merges, show, commit), commits);
  }

  /** The first commit that fails decides the error. */
  lemma {:induction false} ChangesOfFirstError(repo: string, merges: set<string>, show: string -> Run, commits: seq<string>, i: nat)
    requires i < |commits| && ChangeFor(repo, merges, show, commits[i]).Err?
    requires forall j :: 0 <= j < i ==> ChangeFor(repo, merges, show, commits[j]).Ok?
    ensures ChangesOf(repo, merges, show, commits) == Err(ChangeFor(repo, merges, show, commits[i]).error)
    decreases i
  {
    if i == 0 {
      ChangesOfFails(repo, merges, show, commits);
    } else {
      var tail := commits[1..];
      assert tail[i - 1] == commits[i];
      forall j | 0 <= j < i - 1
        ensures ChangeFor(repo, merges, show, tail[j]).Ok?
      {
        assert tail[j] == commits[j + 1];
      }
      ChangesOfFirstError(repo, merges, show, tail, i - 1);
      assert ChangeFor(repo, merges, show, commits[0]).Ok?;
    }
  }

  /** A successful log has one change per first-parent commit, in order,
      with the commit and repository copied, `Merge` exactly for the
      commits the merge query lists, and the fields parsed from `git show`. */
  lemma RepoChangelogShape(repo: string, merged: Run, firstParent: Run, show: string -> Run)
    requires RepoChangelogOf(repo, merged, firstParent, show).Ok?
    ensures OutputText(merged).Ok? && OutputText(firstParent).Ok?
    ensures var commits := CommitIds(firstParent.output.stdout);
      var logs := RepoChangelogOf(repo, merged, firstParent, show).value.logs;
      && |logs| == |commits|
      && forall i :: 0 <= i < |commits| ==>
           && logs[i].commit == commits[i] && logs[i].repo == repo
           && (logs[i].kind == Merge <==> commits[i] in CommitIds(merged.output.stdout))
           && Shows(show, commits[i])
           && Ok(ParsedFields(logs[i])) == ParsedCommitOf(commits[i], show(commits[i]).output.stdout)
  {
    var merges := MergeSet(merged.output.stdout);
    var commits := CommitIds(firstParent.output.stdout);
    ChangesOfShape(repo, merges, show, commits);
    forall i | 0 <= i < |commits|
      ensures ChangeFor(repo, merges, show, commits[i]).Ok?
    {
    }
    forall i | 0 <= i < |commits|
      ensures var c := ChangeFor(repo, merges, show, commits[i]).value;
        && c.commit == commits[i] && c.repo == repo
        && (c.kind == Merge <==> commits[i] in CommitIds(merged.output.stdout))
        && Shows(show, commits[i])
        && Ok(ParsedFields(c)) == ParsedCommitOf(commits[i], show(commits[i]).output.stdout)
    {
      ChangeForFields(repo, merges, show, commits[i]);
    }
  }

  /** The log succeeds exactly when both queries succeed and every listed
      commit shows and parses. */
  lemma RepoChangelogSucceeds(repo: string, merged: Run, firstParent: Run, show: string -> Run)
    ensures RepoChangelogOf(repo, merged, firstParent, show).Ok? <==>
      && OutputText(merged).Ok? && OutputText(firstParent).Ok?
      && forall i :: 0 <= i < |CommitIds(firstParent.output.stdout)| ==>
           Shows(show, CommitIds(firstParent.output.stdout)[i])
  {
    if OutputText(merged).Ok? && OutputText(firstParent).Ok? {
      var merges := MergeSet(merged.output.stdout);
      var commits := CommitIds(firstParent.output.stdout);
      ChangesOfShape(repo, merges, show, commits);
      forall i | 0 <= i < |commits|
        ensures ChangeFor(repo, merges, show, commits[i]).Ok? <==> Shows(show, commits[i])
      {
        ChangeForFields(repo, merges, show, commits[i]);
      }
    }
  }

  /** Errors come from the merge query, then the first-parent query, then
      the first commit that does not show or parse. */
  lemma RepoChangelogFirstError(repo: string, merged: Run, firstParent: Run, show: string -> Run, i: nat)
    requires OutputText(merged).Ok? && OutputText(firstParent).Ok?
    requires i < |CommitIds(firstParent.output.stdout)|
    requires !Shows(show, CommitIds(firstParent.output.stdout)[i])
    requires forall j :: 0 <= j < i ==> Shows(show, CommitIds(firstParent.output.stdout)[j])
    ensures var commit := CommitIds(firstParent.output.stdout)[i];
      var details := OutputText(show(commit));
      RepoChangelogOf(repo, merged, firstParent, show) ==
        if details.Err? then Err(details.error) else Err(ParsedCommitOf(commit, details.value).error)
  {
    var merges := MergeSet(merged.output.stdout);
    var commits := CommitIds(firstParent.output.stdout);
    forall j | 0 <= j <= i
      ensures ChangeFor(repo, merges, show, commits[j]).Ok? <==> Shows(show, commits[j])
    {
      ChangeForFields(repo, merges, show, commits[j]);
    }
    ChangesOfFirstError(repo, merges, show, commits, i);
  }

  lemma QueryErrors(repo: string, merged: Run, firstParent: Run, show: string -> Run)
    ensures OutputText(merged).Err? ==>
      RepoChangelogOf(repo, merged, firstParent, show) == Err(OutputText(merged).error)
    ensures OutputText(merged).Ok? && OutputText(firstParent).Err? ==>
      RepoChangelogOf(repo, merged, firstParent, show) == Err(OutputText(firstParent).error)
  {
  }
}
