/** git-dirty-status.rb: sorts the lines of `git status --porcelain` into
    modified, untracked, deleted and other files and prints a one-line
    summary, or nothing for a clean tree. */
module DirtyStatus {
  import opened Wrappers
  import opened Text

  // ---------------------------------------------------------------------------
  // One line: strip, then split into a status and a file
  // ---------------------------------------------------------------------------

  /** The characters Ruby's `String#strip` removes: null, tab, line feed,
      vertical tab, form feed, carriage return and space. */
  predicate IsStripSpace(c: char) {
    c == '\0' || c == '\t' || c == '\n' || c == '\U{B}' || c == '\U{C}' || c == '\r' || c == ' '
  }

  /** The separators of `split(' ')`: ASCII whitespace, without null. */
  predicate IsFieldSpace(c: char) {
    c == '\t' || c == '\n' || c == '\U{B}' || c == '\U{C}' || c == '\r' || c == ' '
  }

  /** `String#strip`. */
  function RubyStrip(s: string): string {
    TrimBy(s, IsStripSpace)
  }

  /** The position of the first field separator at or after `i`. */
  function NextFieldSpace(s: string, i: nat): (j: nat)
    requires i <= |s|
    ensures i <= j <= |s|
    ensures forall k :: i <= k < j ==> !IsFieldSpace(s[k])
    ensures j < |s| ==> IsFieldSpace(s[j])
    decreases |s| - i
  {
    if i == |s| || IsFieldSpace(s[i]) then i else NextFieldSpace(s, i + 1)
  }

  /** `split(' ', 2)`: leading separators skipped, then the first field and,
      after the run of separators that ends it, the rest of the text
      unsplit. The empty text has no fields; a non-empty text of
      separators only keeps its empty remainder, as a positive limit does.
      `Fields` never passes the latter, since `strip` has removed every
      separator at both ends. */
  function SplitField(s: string): (r: seq<string>)
    ensures |r| <= 2
  {
    var i := SkipForward(s, IsFieldSpace, 0);
    if i == |s| then (if |s| == 0 then [] else [""])
    else
      var j := NextFieldSpace(s, i);
      if j == |s| then [s[i..]]
      else [s[i..j], s[SkipForward(s, IsFieldSpace, j)..]]
  }

  /** `status, file = line.strip.split(' ', 2)`: a missing field is `nil`. */
  function Fields(line: string): (Option<string>, Option<string>) {
    var f := SplitField(RubyStrip(line));
    (if |f| > 0 then Some(f[0]) else None, if |f| > 1 then Some(f[1]) else None)
  }

  /** Stripping removes exactly the padding around a text that does not
      itself start or end with whitespace. */
  lemma StripPadded(pre: string, t: string, post: string)
    requires forall k :: 0 <= k < |pre| ==> IsStripSpace(pre[k])
    requires forall k :: 0 <= k < |post| ==> IsStripSpace(post[k])
    requires |t| > 0 && !IsStripSpace(t[0]) && !IsStripSpace(t[|t| - 1])
    ensures RubyStrip(pre + t + post) == t
  {
    var s := pre + t + post;
    assert forall k :: 0 <= k < |pre| ==> s[k] == pre[k];
    assert s[|pre|] == t[0];
    var i := SkipForward(s, IsStripSpace, 0);
    assert i == |pre|;
    assert forall k :: |pre| + |t| <= k < |s| ==> s[k] == post[k - |pre| - |t|];
    assert s[|pre| + |t| - 1] == t[|t| - 1];
    var j := SkipBackward(s, IsStripSpace, i, |s|);
    assert j == |pre| + |t|;
    assert s[i..j] == t;
  }

  /** A status field, separators and a file name split into the status and
      the file. */
  lemma SplitFieldOf(status: string, gap: string, file: string)
    requires |status| > 0 && forall k :: 0 <= k < |status| ==> !IsStripSpace(status[k])
    requires |gap| > 0 && forall k :: 0 <= k < |gap| ==> IsFieldSpace(gap[k])
    requires |file| > 0 && !IsStripSpace(file[0])
    ensures SplitField(status + gap + file) == [status, file]
  {
    var s := status + gap + file;
    assert SkipForward(s, IsFieldSpace, 0) == 0 by {
      assert s[0] == status[0];
    }
    assert forall k :: 0 <= k < |status| ==> s[k] == status[k];
    var j := NextFieldSpace(s, 0);
    assert s[|status|] == gap[0];
    assert j == |status|;
    assert forall k :: |status| <= k < |status| + |gap| ==> s[k] == gap[k - |status|];
    assert s[|status| + |gap|] == file[0];
    var m := SkipForward(s, IsFieldSpace, j);
    assert m == |status| + |gap|;
    assert s[..j] == status;
    assert s[m..] == file;
  }

  /** A porcelain line: padding, a status, separators, a file name and the
      line end give that status and that file. */
  lemma FieldsOf(pre: string, status: string, gap: string, file: string, post: string)
    requires forall k :: 0 <= k < |pre| ==> IsStripSpace(pre[k])
    requires forall k :: 0 <= k < |post| ==> IsStripSpace(post[k])
    requires |status| > 0 && forall k :: 0 <= k < |status| ==> !IsStripSpace(status[k])
    requires |gap| > 0 && forall k :: 0 <= k < |gap| ==> IsFieldSpace(gap[k])
    requires |file| > 0 && !IsStripSpace(file[0]) && !IsStripSpace(file[|file| - 1])
    ensures Fields(pre + status + gap + file + post) == (Some(status), Some(file))
  {
    var t := status + gap + file;
    assert t[0] == status[0] && t[|t| - 1] == file[|file| - 1];
    assert pre + status + gap + file + post == pre + t + post;
    StripPadded(pre, t, post);
    SplitFieldOf(status, gap, file);
  }

  /** A line of a status field only has no file. */
  lemma FieldsOfStatusOnly(status: string)
    requires |status| > 0 && forall k :: 0 <= k < |status| ==> !IsStripSpace(status[k])
    ensures Fields(status) == (Some(status), None)
  {
    TrimByTrimmed(status, IsStripSpace);
    assert SkipForward(status, IsFieldSpace, 0) == 0;
    assert NextFieldSpace(status, 0) == |status|;
  }

  /** A blank line has neither field. */
  lemma FieldsOfBlank(line: string)
    requires forall k :: 0 <= k < |line| ==> IsStripSpace(line[k])
    ensures Fields(line) == (None, None)
  {
    assert |RubyStrip(line)| == 0 by {
      var i := SkipForward(line, IsStripSpace, 0);
      assert i == |line|;
    }
  }

  // ---------------------------------------------------------------------------
  // The four sets
  // ---------------------------------------------------------------------------

  /** Ruby `Set`s of file names in insertion order; `None` is `nil`. */
  datatype Groups = Groups(
    untracked: seq<Option<string>>,
    deleted: seq<Option<string>>,
    modified: seq<Option<string>>,
    other: seq<Option<string>>)

  const NoFiles := Groups([], [], [], [])

  datatype Kind = Untracked | Modified | Deleted | Other

  /** The `case` on the status: `??`, exactly `M`, exactly `D`, or anything
      else, a missing status included. */
  function KindOf(status: Option<string>): Kind {
    if status == Some("??") then Untracked
    else if status == Some("M") then Modified
    else if status == Some("D") then Deleted
    else Other
  }

  /** `set << x`. */
  function Insert(s: seq<Option<string>>, x: Option<string>): seq<Option<string>> {
    if x in s then s else s + [x]
  }

  function Group(g: Groups, k: Kind): seq<Option<string>> {
    match k
    case Untracked => g.untracked
    case Modified => g.modified
    case Deleted => g.deleted
    case Other => g.other
  }

  /** One line of input into its set. */
  function AddLine(g: Groups, line: string): Groups {
    var (status, file) := Fields(line);
    match KindOf(status)
    case Untracked => g.(untracked := Insert(g.untracked, file))
    case Modified => g.(modified := Insert(g.modified, file))
    case Deleted => g.(deleted := Insert(g.deleted, file))
    case Other => g.(other := Insert(g.other, file))
  }

  /** The sets after reading `lines`. */
  function Classify(lines: seq<string>): Groups
    decreases |lines|
  {
    if |lines| == 0 then NoFiles else AddLine(Classify(lines[..|lines| - 1]), lines[|lines| - 1])
  }

  /** The `ARGF.each` loop over the lines of the input, adding each file to
      one of the four sets. */
  method ClassifyLines(lines: seq<string>) returns (g: Groups)
    ensures g == Classify(lines)
  {
    var untracked, deleted, modified, other := [], [], [], [];
    var i := 0;
    while i < |lines|
      invariant 0 <= i <= |lines|
      invariant Groups(untracked, deleted, modified, other) == Classify(lines[..i])
    {
      assert lines[..i + 1][..i] == lines[..i];
      var (status, file) := Fields(lines[i]);
      if status == Some("??") {
        untracked := Insert(untracked, file);
      } else if status == Some("M") {
        modified := Insert(modified, file);
      } else if status == Some("D") {
        deleted := Insert(deleted, file);
      } else {
        other := Insert(other, file);
      }
      i := i + 1;
    }
    assert lines[..i] == lines;
    g := Groups(untracked, deleted, modified, other);
  }

  /** The file of a line, in the set its status selects. */
  predicate Lists(line: string, k: Kind, x: Option<string>) {
    KindOf(Fields(line).0) == k && Fields(line).1 == x
  }

  predicate NoDuplicates(s: seq<Option<string>>) {
    forall i, j :: 0 <= i < j < |s| ==> s[i] != s[j]
  }

  lemma AddLineGroup(g: Groups, line: string, k: Kind)
    ensures Group(AddLine(g, line), k) ==
      if KindOf(Fields(line).0) == k then Insert(Group(g, k), Fields(line).1) else Group(g, k)
  {
  }

  /** Some element of `s` satisfies `p`. */
  ghost predicate AnyOf<T>(s: seq<T>, p: T -> bool) {
    exists i :: 0 <= i < |s| && p(s[i])
  }

  lemma AnyOfSnoc<T>(s: seq<T>, p: T -> bool)
    requires |s| > 0
    ensures AnyOf(s, p) <==> AnyOf(s[..|s| - 1], p) || p(s[|s| - 1])
  {
    var init := s[..|s| - 1];
    if AnyOf(s, p) {
      var i :| 0 <= i < |s| && p(s[i]);
      if i < |init| {
        assert init[i] == s[i];
      }
    }
    if AnyOf(init, p) {
      var i :| 0 <= i < |init| && p(init[i]);
      assert s[i] == init[i];
    }
  }

  /** Some line of `lines` lists `x` in the set of kind `k`. */
  ghost predicate Listed(lines: seq<string>, k: Kind, x: Option<string>) {
    AnyOf(lines, line => Lists(line, k, x))
  }

  lemma InsertMembers(s: seq<Option<string>>, y: Option<string>)
    requires NoDuplicates(s)
    ensures NoDuplicates(Insert(s, y))
    ensures forall x :: x in Insert(s, y) <==> x in s || x == y
  {
  }

  /** Each set holds every file listed under its status, exactly once, and
      nothing else. */
  lemma {:induction false} ClassifyGroups(lines: seq<string>, k: Kind)
    ensures NoDuplicates(Group(Classify(lines), k))
    ensures forall x :: x in Group(Classify(lines), k) <==> Listed(lines, k, x)
    decreases |lines|
  {
    if |lines| > 0 {
      var init := lines[..|lines| - 1];
      var last := lines[|lines| - 1];
      ClassifyGroups(init, k);
      AddLineGroup(Classify(init), last, k);
      InsertMembers(Group(Classify(init), k), Fields(last).1);
      forall x
        ensures x in Group(Classify(lines), k) <==> Listed(lines, k, x)
      {
        AnyOfSnoc(lines, line => Lists(line, k, x));
      }
    }
  }

  /** A set only ever grows at its end, so files keep the order in which
      they were first seen. */
  lemma {:induction false} ClassifyGrowsAtEnd(lines: seq<string>, n: nat, k: Kind)
    requires n <= |lines|
    ensures Group(Classify(lines[..n]), k) <= Group(Classify(lines), k)
    decreases |lines| - n
  {
    if n < |lines| {
      var init := lines[..|lines| - 1];
      assert init[..n] == lines[..n];
      ClassifyGrowsAtEnd(init, n, k);
      AddLineGroup(Classify(init), lines[|lines| - 1], k);
    } else {
      assert lines[..n] == lines;
    }
  }

  // ---------------------------------------------------------------------------
  // The summary
  // ---------------------------------------------------------------------------

  /** `markdown_code`: the text in backticks, each backtick inside escaped
      with a backslash. */
  function MarkdownCode(s: string): string {
    "`" + ReplaceChar(s, '`', "\\`") + "`"
  }

  /** Undoing the escape: a backslash before a backtick is dropped. */
  function UnescapeTicks(t: string): string
    decreases |t|
  {
    if |t| == 0 then ""
    else if |t| >= 2 && t[0] == '\\' && t[1] == '`' then "`" + UnescapeTicks(t[2..])
    else [t[0]] + UnescapeTicks(t[1..])
  }

  function EscapeTick(c: char): string {
    if c == '`' then "\\`" else [c]
  }

  lemma EscapeStart(s: string)
    requires |s| > 0
    ensures ReplaceChar(s, '`', "\\`") == EscapeTick(s[0]) + ReplaceChar(s[1..], '`', "\\`")
  {
  }

  /** Taking the backticks off and undoing the escape gives the text back. */
  lemma {:induction false} UnescapeEscape(s: string)
    ensures UnescapeTicks(ReplaceChar(s, '`', "\\`")) == s
    ensures |s| > 0 ==> ReplaceChar(s, '`', "\\`")[0] != '`'
    decreases |s|
  {
    if |s| > 0 {
      var rest := ReplaceChar(s[1..], '`', "\\`");
      EscapeStart(s);
      UnescapeEscape(s[1..]);
      var t := EscapeTick(s[0]) + rest;
      if s[0] == '`' {
        assert t[2..] == rest;
      } else {
        assert t[1..] == rest;
        if s[0] == '\\' && |t| >= 2 {
          assert t[1] == rest[0];
        }
      }
      assert s == [s[0]] + s[1..];
    }
  }

  lemma MarkdownCodeRoundTrip(s: string)
    ensures var code := MarkdownCode(s);
      |code| >= 2 && code[0] == '`' && code[|code| - 1] == '`' &&
      UnescapeTicks(code[1..|code| - 1]) == s
  {
    var code := MarkdownCode(s);
    assert code[1..|code| - 1] == ReplaceChar(s, '`', "\\`");
    UnescapeEscape(s);
  }

  datatype ScriptError =
    /** `markdown_code(nil)`: `nil` has no `gsub`, so the script dies. */
    | NilFile

  /** The code spans of a set's files. */
  function Codes(items: seq<Option<string>>): Result<seq<string>, ScriptError>
    decreases |items|
  {
    if |items| == 0 then Ok([])
    else if items[0].None? then Err(NilFile)
    else
      var rest :- Codes(items[1..]);
      Ok([MarkdownCode(items[0].value)] + rest)
  }

  /** One part of the summary: `Key: ` and the files, comma-separated. */
  function GroupText(key: string, items: seq<Option<string>>): Result<string, ScriptError> {
    var codes :- Codes(items);
    Ok(key + ": " + Join(codes, ", "))
  }

  /** The sets in the order of the hash literal of the summary. */
  function Keyed(g: Groups): seq<(string, seq<Option<string>>)> {
    [("Modified", g.modified), ("Untracked", g.untracked), ("Deleted", g.deleted), ("Other", g.other)]
  }

  /** The parts of the non-empty sets, in order. */
  function Parts(pairs: seq<(string, seq<Option<string>>)>): Result<seq<string>, ScriptError>
    decreases |pairs|
  {
    if |pairs| == 0 then Ok([])
    else
      var init :- Parts(pairs[..|pairs| - 1]);
      var (key, items) := pairs[|pairs| - 1];
      if |items| == 0 then Ok(init)
      else
        var text :- GroupText(key, items);
        Ok(init + [text])
  }

  predicate IsClean(g: Groups) {
    |g.untracked| == 0 && |g.deleted| == 0 && |g.modified| == 0 && |g.other| == 0
  }

  /** What the script prints for the sets. */
  function SummaryOf(g: Groups): Result<string, ScriptError> {
    if IsClean(g) then Ok("")
    else
      var parts :- Parts(Keyed(g));
      Ok("(Dirty, " + Join(parts, ", ") + ")")
  }

  lemma {:induction false} PartsFailureStays(pairs: seq<(string, seq<Option<string>>)>, n: nat)
    requires n <= |pairs| && Parts(pairs[..n]).Err?
    ensures Parts(pairs) == Parts(pairs[..n])
    decreases |pairs| - n
  {
    if n < |pairs| {
      var init := pairs[..|pairs| - 1];
      assert init[..n] == pairs[..n];
      PartsFailureStays(init, n);
    } else {
      assert pairs[..n] == pairs;
    }
  }

  /** The summary loop: one part per non-empty set. */
  method Summary(g: Groups) returns (r: Result<string, ScriptError>)
    ensures r == SummaryOf(g)
  {
    if IsClean(g) {
      return Ok("");
    }
    var pairs := Keyed(g);
    var status: seq<string> := [];
    var i := 0;
    while i < |pairs|
      invariant 0 <= i <= |pairs|
      invariant Parts(pairs[..i]) == Ok(status)
    {
      assert pairs[..i + 1][..i] == pairs[..i];
      var (key, items) := pairs[i];
      if |items| > 0 {
        var text := GroupText(key, items);
        if text.Err? {
          PartsFailureStays(pairs, i + 1);
          return Err(text.error);
        }
        status := status + [text.value];
      }
      i := i + 1;
    }
    assert pairs[..i] == pairs;
    return Ok("(Dirty, " + Join(status, ", ") + ")");
  }

  lemma {:induction false} CodesFail(items: seq<Option<string>>)
    ensures Codes(items).Err? <==> None in items
    decreases |items|
  {
    if |items| > 0 {
      CodesFail(items[1..]);
      assert items == [items[0]] + items[1..];
    }
  }

  lemma {:induction false} PartsFail(pairs: seq<(string, seq<Option<string>>)>)
    ensures Parts(pairs).Err? <==> exists i :: 0 <= i < |pairs| && None in pairs[i].1
    decreases |pairs|
  {
    if |pairs| > 0 {
      var init := pairs[..|pairs| - 1];
      PartsFail(init);
      CodesFail(pairs[|pairs| - 1].1);
      if exists i :: 0 <= i < |pairs| && None in pairs[i].1 {
        var i :| 0 <= i < |pairs| && None in pairs[i].1;
        if i < |init| {
          assert init[i] == pairs[i];
        }
      }
      if exists i :: 0 <= i < |init| && None in init[i].1 {
        var i :| 0 <= i < |init| && None in init[i].1;
        assert pairs[i] == init[i];
      }
    }
  }

  /** A clean tree prints nothing; otherwise the script dies exactly when a
      set holds `nil`, a line without a file. */
  lemma SummaryOutcome(g: Groups)
    ensures IsClean(g) ==> SummaryOf(g) == Ok("")
    ensures !IsClean(g) ==>
      (SummaryOf(g).Err? <==> None in g.modified || None in g.untracked || None in g.deleted || None in g.other)
  {
    var pairs := Keyed(g);
    PartsFail(pairs);
    if None in g.modified { assert None in pairs[0].1; }
    if None in g.untracked { assert None in pairs[1].1; }
    if None in g.deleted { assert None in pairs[2].1; }
    if None in g.other { assert None in pairs[3].1; }
  }

  /** The parts, for sets without `nil`: the non-empty sets in the order
      Modified, Untracked, Deleted, Other. */
  function Present(pairs: seq<(string, seq<Option<string>>)>): seq<(string, seq<Option<string>>)>
    decreases |pairs|
  {
    if |pairs| == 0 then []
    else if |pairs[0].1| == 0 then Present(pairs[1..])
    else [pairs[0]] + Present(pairs[1..])
  }

  lemma {:induction false} PresentSnoc(pairs: seq<(string, seq<Option<string>>)>, p: (string, seq<Option<string>>))
    ensures Present(pairs + [p]) == Present(pairs) + (if |p.1| == 0 then [] else [p])
    decreases |pairs|
  {
    if |pairs| == 0 {
      assert pairs + [p] == [p];
      assert [p][1..] == [];
    } else {
      assert (pairs + [p])[1..] == pairs[1..] + [p];
      PresentSnoc(pairs[1..], p);
    }
  }

  function CodesOf(items: seq<Option<string>>): seq<string>
    requires None !in items
  {
    seq(|items|, i requires 0 <= i < |items| => MarkdownCode(items[i].value))
  }

  lemma {:induction false} CodesOk(items: seq<Option<string>>)
    requires None !in items
    ensures Codes(items) == Ok(CodesOf(items))
    decreases |items|
  {
    if |items| > 0 {
      assert items[0] in items;
      assert forall x :: x in items[1..] ==> x in items;
      CodesOk(items[1..]);
      assert CodesOf(items) == [MarkdownCode(items[0].value)] + CodesOf(items[1..]);
    }
  }

  /** The text of each present set: its key, then its files as code spans. */
  function TextsOf(pairs: seq<(string, seq<Option<string>>)>): seq<string>
    requires forall i :: 0 <= i < |pairs| ==> None !in pairs[i].1
  {
    seq(|pairs|, i requires 0 <= i < |pairs| => pairs[i].0 + ": " + Join(CodesOf(pairs[i].1), ", "))
  }

  lemma {:induction false} PresentKeeps(pairs: seq<(string, seq<Option<string>>)>)
    ensures forall i :: 0 <= i < |Present(pairs)| ==> Present(pairs)[i] in pairs && |Present(pairs)[i].1| > 0
    decreases |pairs|
  {
    if |pairs| > 0 {
      PresentKeeps(pairs[1..]);
      assert forall x :: x in pairs[1..] ==> x in pairs;
    }
  }

  /** Without `nil`s the parts are the texts of the non-empty sets. */
  lemma {:induction false} PartsOk(pairs: seq<(string, seq<Option<string>>)>)
    requires forall i :: 0 <= i < |pairs| ==> None !in pairs[i].1
    ensures forall i :: 0 <= i < |Present(pairs)| ==> None !in Present(pairs)[i].1
    ensures Parts(pairs) == Ok(TextsOf(Present(pairs)))
    decreases |pairs|
  {
    PresentKeeps(pairs);
    if |pairs| > 0 {
      var init := pairs[..|pairs| - 1];
      var last := pairs[|pairs| - 1];
      assert forall i :: 0 <= i < |init| ==> init[i] == pairs[i];
      PartsOk(init);
      assert pairs == init + [last];
      assert pairs[..|pairs| - 1] == init;
      PresentSnoc(init, last);
      PresentKeeps(init);
      if |last.1| > 0 {
        CodesOk(last.1);
        assert GroupText(last.0, last.1) == Ok(last.0 + ": " + Join(CodesOf(last.1), ", "));
        assert Parts(pairs) == Ok(TextsOf(Present(init)) + [last.0 + ": " + Join(CodesOf(last.1), ", ")]);
        assert Present(pairs) == Present(init) + [last];
        assert TextsOf(Present(pairs)) == TextsOf(Present(init)) + [last.0 + ": " + Join(CodesOf(last.1), ", ")];
      } else {
        assert Parts(pairs) == Parts(init);
        assert Present(pairs) == Present(init);
      }
    } else {
      assert TextsOf(Present(pairs)) == [];
    }
  }

  /** A tree with changes and no `nil` prints `(Dirty, …)` holding the texts
      of the non-empty sets in the order Modified, Untracked, Deleted,
      Other, separated by commas. */
  lemma SummaryDirty(g: Groups)
    requires !IsClean(g)
    requires None !in g.modified && None !in g.untracked && None !in g.deleted && None !in g.other
    ensures forall i :: 0 <= i < |Present(Keyed(g))| ==> None !in Present(Keyed(g))[i].1
    ensures SummaryOf(g) == Ok("(Dirty, " + Join(TextsOf(Present(Keyed(g))), ", ") + ")")
    ensures |Present(Keyed(g))| > 0
  {
    PartsOk(Keyed(g));
    var pairs := Keyed(g);
    assert pairs[0].1 == g.modified;
  }

  /** The four sets as `(key, files)` pairs in print order, with the empty
      ones left out. */
  lemma PresentKeyed(g: Groups)
    ensures Present(Keyed(g)) ==
      (if |g.modified| > 0 then [("Modified", g.modified)] else []) +
      (if |g.untracked| > 0 then [("Untracked", g.untracked)] else []) +
      (if |g.deleted| > 0 then [("Deleted", g.deleted)] else []) +
      (if |g.other| > 0 then [("Other", g.other)] else [])
  {
    var pairs := Keyed(g);
    var p1 := pairs[1..];
    var p2 := p1[1..];
    var p3 := p2[1..];
    assert p3 == [("Other", g.other)];
    assert p3[1..] == [];
    var o: seq<(string, seq<Option<string>>)> := if |g.other| > 0 then [("Other", g.other)] else [];
    var d: seq<(string, seq<Option<string>>)> := if |g.deleted| > 0 then [("Deleted", g.deleted)] else [];
    var u: seq<(string, seq<Option<string>>)> := if |g.untracked| > 0 then [("Untracked", g.untracked)] else [];
    var m: seq<(string, seq<Option<string>>)> := if |g.modified| > 0 then [("Modified", g.modified)] else [];
    assert Present(p3) == o;
    assert Present(p2) == d + o;
    assert Present(p1) == u + (d + o);
    assert Present(pairs) == m + (u + (d + o));
    Regroup(m, u, d, o);
  }

  lemma Regroup3<T>(a: seq<T>, b: seq<T>, c: seq<T>, d: seq<T>)
    ensures a + (b + c + d) == a + b + c + d
  {
  }

  lemma Regroup<T>(a: seq<T>, b: seq<T>, c: seq<T>, d: seq<T>)
    ensures a + (b + (c + d)) == a + b + c + d
  {
  }

  /** A path as porcelain output prints it: not empty, no whitespace at
      either end. */
  predicate PlainPath(f: string) {
    |f| > 0 && !IsStripSpace(f[0]) && !IsStripSpace(f[|f| - 1])
  }

  /** The two porcelain forms of an unstaged change and an untracked file
      give the status `M` and `??` and the path. */
  lemma StatusLine(status: string, path: string, line: string)
    requires status == " M" || status == "??"
    requires PlainPath(path) && line == status + " " + path + "\n"
    ensures Fields(line) == (Some(RubyStrip(status)), Some(path))
    ensures RubyStrip(status) == if status == " M" then "M" else "??"
  {
    if status == " M" {
      assert line == " " + "M" + " " + path + "\n";
      FieldsOf(" ", "M", " ", path, "\n");
      StripPadded(" ", "M", "");
      assert " " + "M" + "" == " M";
    } else {
      assert line == "" + "??" + " " + path + "\n";
      FieldsOf("", "??", " ", path, "\n");
      TrimByTrimmed("??", IsStripSpace);
    }
  }

  /** The summary of an unstaged change to `a` and an untracked `b`:
      modified files come first. */
  lemma SummaryExample(a: string, b: string)
    requires '`' !in a && '`' !in b
    ensures SummaryOf(Groups([Some(b)], [], [Some(a)], [])) ==
      Ok("(Dirty, " + Join(["Modified: " + "`" + a + "`", "Untracked: " + "`" + b + "`"], ", ") + ")")
  {
    var g := Groups([Some(b)], [], [Some(a)], []);
    SummaryDirty(g);
    ExampleTexts(a, b);
  }

  lemma ExampleTexts(a: string, b: string)
    requires '`' !in a && '`' !in b
    ensures var g := Groups([Some(b)], [], [Some(a)], []);
      && (forall i :: 0 <= i < |Present(Keyed(g))| ==> None !in Present(Keyed(g))[i].1)
      && TextsOf(Present(Keyed(g))) == ["Modified: " + "`" + a + "`", "Untracked: " + "`" + b + "`"]
  {
    var g := Groups([Some(b)], [], [Some(a)], []);
    var pairs := Keyed(g);
    PresentKeyed(g);
    assert Present(pairs) == [pairs[0], pairs[1]];
    CodeExample(a);
    CodeExample(b);
    var texts := TextsOf(Present(pairs));
    assert Join([MarkdownCode(a)], ", ") == MarkdownCode(a);
    assert Join([MarkdownCode(b)], ", ") == MarkdownCode(b);
    assert "Modified" + ": " == "Modified: ";
    assert "Untracked" + ": " == "Untracked: ";
    assert texts[0] == "Modified: " + ("`" + a + "`");
    assert texts[1] == "Untracked: " + ("`" + b + "`");
    Regroup3("Modified: ", "`", a, "`");
    Regroup3("Untracked: ", "`", b, "`");
    assert texts == [texts[0], texts[1]];
  }

  lemma CodeExample(a: string)
    requires '`' !in a
    ensures CodesOf([Some(a)]) == [MarkdownCode(a)]
    ensures MarkdownCode(a) == "`" + a + "`"
  {
    ReplaceCharAbsent(a, '`', "\\`");
  }

  /** A line without a file, such as a blank line or a bare status, puts
      `nil` into a set and the script dies. */
  lemma MissingFileFails(lines: seq<string>, i: nat)
    requires i < |lines| && Fields(lines[i]).1 == None
    ensures SummaryOf(Classify(lines)) == Err(NilFile)
  {
    var k := KindOf(Fields(lines[i]).0);
    assert Lists(lines[i], k, None);
    ClassifyGroups(lines, k);
    NilFails(Classify(lines), k);
  }

  lemma NilFails(g: Groups, k: Kind)
    requires None in Group(g, k)
    ensures SummaryOf(g) == Err(NilFile)
  {
    assert None in g.modified || None in g.untracked || None in g.deleted || None in g.other;
    assert !IsClean(g);
    SummaryOutcome(g);
    assert SummaryOf(g).Err? && SummaryOf(g).error.NilFile?;
  }
}
