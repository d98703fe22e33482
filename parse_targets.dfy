/** parse-targets.py: turns a comma-separated list of build targets, each
    optionally marked with a `+` or `*` suffix, into the entries of a build
    matrix saying whether the target is built signed, unsigned or both. */
module ParseTargets {
  import opened Text

  /** Python's `str.isspace`: the characters `str.strip()` removes. */
  predicate IsPythonWhitespace(c: char) {
    ('\t' <= c <= '\r') || ('\U{1C}' <= c <= '\U{1F}') || c == ' ' || c == '\U{85}' || c == '\U{A0}'
    || c == '\U{1680}' || ('\U{2000}' <= c <= '\U{200A}') || c == '\U{2028}' || c == '\U{2029}'
    || c == '\U{202F}' || c == '\U{205F}' || c == '\U{3000}'
  }

  /** `str.strip()`. */
  function PyStrip(s: string): string {
    TrimBy(s, IsPythonWhitespace)
  }

  /** `[target.strip() for target in text.split(",")]`. */
  function Targets(text: string): seq<string> {
    var pieces := Split(text, ',');
    seq(|pieces|, i requires 0 <= i < |pieces| => PyStrip(pieces[i]))
  }

  /** One entry of the `include` list. */
  datatype Include = Include(target: string, sign: bool, unsigned: bool)

  /** The suffix branch: `+` builds signed only, `*` builds both, no suffix
      builds unsigned only; a suffix is dropped from the name. */
  function IncludeOf(target: string): Include {
    if EndsWith(target, "+") then Include(target[..|target| - 1], true, false)
    else if EndsWith(target, "*") then Include(target[..|target| - 1], true, true)
    else Include(target, false, true)
  }

  /** The whole script, before the JSON encoding. */
  function IncludeList(text: string): seq<Include> {
    var targets := Targets(text);
    seq(|targets|, i requires 0 <= i < |targets| => IncludeOf(targets[i]))
  }

  /** The `for` loop that appends one entry per target. */
  method BuildInclude(targets: seq<string>) returns (entries: seq<Include>)
    ensures |entries| == |targets|
    ensures forall i :: 0 <= i < |targets| ==> entries[i] == IncludeOf(targets[i])
  {
    entries := [];
    for i := 0 to |targets|
      invariant |entries| == i
      invariant forall j :: 0 <= j < i ==> entries[j] == IncludeOf(targets[j])
    {
      var target := targets[i];
      if EndsWith(target, "+") {
        entries := entries + [Include(target[..|target| - 1], true, false)];
      } else if EndsWith(target, "*") {
        entries := entries + [Include(target[..|target| - 1], true, true)];
      } else {
        entries := entries + [Include(target, false, true)];
      }
    }
  }

  /** The suffix an entry stands for. */
  function SuffixOf(e: Include): string {
    if e.sign && !e.unsigned then "+" else if e.sign then "*" else ""
  }

  /** No entry has both flags false, and the name with the suffix its flags
      stand for is the target that was read. */
  lemma IncludeRoundTrip(target: string)
    ensures IncludeOf(target).sign || IncludeOf(target).unsigned
    ensures IncludeOf(target).target + SuffixOf(IncludeOf(target)) == target
  {
  }

  /** The flags say which suffix the target had. */
  lemma IncludeFlags(target: string)
    ensures IncludeOf(target).sign <==> EndsWith(target, "+") || EndsWith(target, "*")
    ensures IncludeOf(target).unsigned <==> !EndsWith(target, "+")
    ensures !IncludeOf(target).sign ==> IncludeOf(target).target == target
  {
    if EndsWith(target, "+") {
      assert !EndsWith(target, "*");
    }
  }

  /** One target per comma-separated piece, in order: one more than there
      are commas, each piece stripped, and the pieces rejoined with commas
      give the input back. */
  lemma {:induction false} TargetsPieces(text: string)
    ensures |Targets(text)| == multiset(text)[','] + 1
    ensures Join(Split(text, ','), ",") == text
    ensures forall i :: 0 <= i < |Targets(text)| ==> Targets(text)[i] == PyStrip(Split(text, ',')[i])
  {
    SplitCount(text, ',');
    JoinSplit(text, ',');
  }

  lemma {:induction false} SplitCount(s: string, c: char)
    ensures |Split(s, c)| == multiset(s)[c] + 1
    decreases |s|
  {
    match IndexOf(s, c)
    case None =>
      assert c !in multiset(s);
    case Some(i) =>
      SplitCount(s[i + 1..], c);
      CountAfterFirst(s, c, i);
  }

  /** Before the first `c` there is none, so the count continues after it. */
  lemma CountAfterFirst(s: string, c: char, i: nat)
    requires i < |s| && s[i] == c && c !in s[..i]
    ensures multiset(s)[c] == multiset(s[i + 1..])[c] + 1
  {
    assert s == (s[..i] + [c]) + s[i + 1..];
    assert c !in multiset(s[..i]);
    assert multiset(s[..i] + [c])[c] == 1;
  }

  /** Each target is stripped and holds no comma. */
  lemma TargetsStripped(text: string, i: nat)
    requires i < |Targets(text)|
    ensures ',' !in Targets(text)[i]
    ensures |Targets(text)[i]| > 0 ==>
      !IsPythonWhitespace(Targets(text)[i][0]) && !IsPythonWhitespace(Targets(text)[i][|Targets(text)[i]| - 1])
  {
    var piece := Split(text, ',')[i];
    assert ',' !in piece;
    var t := PyStrip(piece);
    var a := SkipForward(piece, IsPythonWhitespace, 0);
    var b := SkipBackward(piece, IsPythonWhitespace, a, |piece|);
    assert t == piece[a..b];
    assert forall x :: x in t ==> x in piece;
  }

  /** Empty input is one empty target, built unsigned only. */
  lemma EmptyInput()
    ensures Targets("") == [""]
    ensures IncludeList("") == [Include("", false, true)]
  {
    assert Split("", ',') == [""];
  }

  /** The loop builds what the script prints. */
  method ParseInput(text: string) returns (entries: seq<Include>)
    ensures entries == IncludeList(text)
  {
    entries := BuildInclude(Targets(text));
  }
}
