/** The text helpers the changelog templates call
    (changelog-generator/src/template.rs): `md_link_desc_escape`, `indent`
    and `slice`, each on the text its parameters render to. */
module Template {
  import opened Wrappers
  import opened Text

  // ---------------------------------------------------------------------------
  // md_link_desc_escape
  // ---------------------------------------------------------------------------

  /** The text `md_link_desc_escape` hands to the template's own escape
      function: `[` and `]` escaped with a backslash, then every line break
      turned into a space. */
  function LinkDescription(s: string): string {
    var openEscaped := ReplaceChar(s, '[', "\\[");
    var closed := ReplaceChar(openEscaped, ']', "\\]");
    ReplaceChar(closed, '\n', " ")
  }

  predicate IsBracket(c: char) {
    c == '[' || c == ']'
  }

  /** What one character of the input becomes. */
  function EscapeChar(c: char): string {
    if c == '[' then "\\[" else if c == ']' then "\\]" else if c == '\n' then " " else [c]
  }

  /** The escape, character by character. */
  function EscapeEach(s: string): string
    decreases |s|
  {
    if |s| == 0 then "" else EscapeChar(s[0]) + EscapeEach(s[1..])
  }

  lemma ReplaceCharAlone(x: char, c: char, rep: string)
    ensures ReplaceChar([x], c, rep) == if x == c then rep else [x]
  {
    assert [x][1..] == [];
  }

  lemma LinkDescriptionOfChar(c: char)
    ensures LinkDescription([c]) == EscapeChar(c)
  {
    ReplaceCharAlone(c, '[', "\\[");
    var openEscaped := ReplaceChar([c], '[', "\\[");
    if c == '[' {
      ReplaceCharAbsent(openEscaped, ']', "\\]");
      ReplaceCharAbsent(openEscaped, '\n', " ");
    } else {
      ReplaceCharAlone(c, ']', "\\]");
      var closed := ReplaceChar([c], ']', "\\]");
      if c == ']' {
        ReplaceCharAbsent(closed, '\n', " ");
      } else {
        ReplaceCharAlone(c, '\n', " ");
      }
    }
  }

  lemma {:induction false} LinkDescriptionAppend(a: string, b: string)
    ensures LinkDescription(a + b) == LinkDescription(a) + LinkDescription(b)
  {
    ReplaceCharAppend(a, b, '[', "\\[");
    var oa := ReplaceChar(a, '[', "\\[");
    var ob := ReplaceChar(b, '[', "\\[");
    ReplaceCharAppend(oa, ob, ']', "\\]");
    ReplaceCharAppend(ReplaceChar(oa, ']', "\\]"), ReplaceChar(ob, ']', "\\]"), '\n', " ");
  }

  /** The three replacements together escape each character on its own. */
  lemma {:induction false} LinkDescriptionPerChar(s: string)
    ensures LinkDescription(s) == EscapeEach(s)
    decreases |s|
  {
    if |s| == 0 {
    } else {
      assert s == [s[0]] + s[1..];
      LinkDescriptionAppend([s[0]], s[1..]);
      LinkDescriptionOfChar(s[0]);
      LinkDescriptionPerChar(s[1..]);
    }
  }

  /** The description never breaks the line of the link. */
  lemma LinkDescriptionSingleLine(s: string)
    ensures '\n' !in LinkDescription(s)
  {
    var closed := ReplaceChar(ReplaceChar(s, '[', "\\["), ']', "\\]");
    if '\n' in LinkDescription(s) {
      ReplaceCharMembers(closed, '\n', " ", '\n');
      assert false;
    }
  }

  /** Every bracket of the description is preceded by a backslash. */
  lemma {:induction false} BracketsEscaped(s: string)
    ensures forall i :: 0 <= i < |EscapeEach(s)| && IsBracket(EscapeEach(s)[i]) ==> i > 0 && EscapeEach(s)[i - 1] == '\\'
    decreases |s|
  {
    if |s| > 0 {
      BracketsEscaped(s[1..]);
      var e := EscapeChar(s[0]);
      var rest := EscapeEach(s[1..]);
      var r := e + rest;
      assert r == EscapeEach(s);
      assert s[0] == '[' || s[0] == ']' ==> |e| == 2 && e[0] == '\\' && e[1] == s[0];
      assert s[0] != '[' && s[0] != ']' ==> |e| == 1 && e[0] != '[' && e[0] != ']';
      forall i | 0 <= i < |r| && IsBracket(r[i])
        ensures i > 0 && r[i - 1] == '\\'
      {
        if i > |e| {
          var j := i - |e|;
          assert r[i] == rest[j];
          assert rest[j - 1] == '\\';
          assert r[i - 1] == rest[j - 1];
        } else if i < |e| {
          assert r[i] == e[i] && r[0] == e[0];
        }
      }
    }
  }

  /** The description is the input with each bracket escaped and each line
      break made a space: per character, with nothing else changed. */
  lemma LinkDescriptionSpec(s: string)
    ensures LinkDescription(s) == EscapeEach(s)
    ensures '\n' !in LinkDescription(s)
    ensures forall i :: 0 <= i < |LinkDescription(s)| && IsBracket(LinkDescription(s)[i]) ==>
      i > 0 && LinkDescription(s)[i - 1] == '\\'
  {
    LinkDescriptionPerChar(s);
    LinkDescriptionSingleLine(s);
    BracketsEscaped(s);
  }

  // ---------------------------------------------------------------------------
  // indent
  // ---------------------------------------------------------------------------

  const MaxIndent: nat := 256

  /** `n.clamp(0, 256)`. */
  function ClampIndent(n: nat): (r: nat)
    ensures r <= MaxIndent
    ensures n <= MaxIndent ==> r == n
    ensures n > MaxIndent ==> r == MaxIndent
  {
    if n > MaxIndent then MaxIndent else n
  }

  /** `" ".repeat(n)`. */
  function Spaces(n: nat): (r: string)
    ensures |r| == n && forall i :: 0 <= i < n ==> r[i] == ' '
  {
    if n == 0 then "" else " " + Spaces(n - 1)
  }

  /** What `indent n content` writes: each line of `content` behind the
      clamped number of spaces, each followed by a line break. */
  function IndentText(n: nat, content: string): string {
    Terminated(Prefixed(Spaces(ClampIndent(n)), Lines(content)))
  }

  /** Every line with `prefix` in front. */
  function Prefixed(prefix: string, lines: seq<string>): (r: seq<string>)
    ensures |r| == |lines| && forall i :: 0 <= i < |lines| ==> r[i] == prefix + lines[i]
  {
    seq(|lines|, i requires 0 <= i < |lines| => prefix + lines[i])
  }

  lemma TerminatedSnoc(ls: seq<string>, l: string)
    ensures Terminated(ls + [l]) == Terminated(ls) + l + "\n"
  {
    TerminatedAppend(ls, [l]);
    assert Terminated([l]) == l + "\n" + Terminated([]);
  }

  /** The loop of `indent`: one line at a time into the output. */
  method Indent(n: nat, content: string) returns (out: string)
    ensures out == IndentText(n, content)
  {
    var whitespace := Spaces(ClampIndent(n));
    var lines := Lines(content);
    ghost var written := Prefixed(whitespace, lines);
    out := "";
    var i := 0;
    while i < |lines|
      invariant 0 <= i <= |lines|
      invariant out == Terminated(written[..i])
    {
      assert written[..i + 1] == written[..i] + [whitespace + lines[i]];
      TerminatedSnoc(written[..i], whitespace + lines[i]);
      out := out + whitespace + lines[i] + "\n";
      i := i + 1;
    }
    assert written[..i] == written;
  }

  /** Nothing to indent writes nothing; indents past 256 are 256. */
  lemma IndentBounds(n: nat, content: string)
    ensures content == "" ==> IndentText(n, content) == ""
    ensures n > MaxIndent ==> IndentText(n, content) == IndentText(MaxIndent, content)
  {
  }

  /** Splitting the output into lines gives the lines of `content`, each
      behind exactly the clamped number of spaces. */
  lemma IndentLines(n: nat, content: string)
    requires forall i :: 0 <= i < |Lines(content)| ==> !EndsWithCR(Lines(content)[i])
    ensures Lines(IndentText(n, content)) == Prefixed(Spaces(ClampIndent(n)), Lines(content))
  {
    var w := Spaces(ClampIndent(n));
    var ls := Prefixed(w, Lines(content));
    forall i | 0 <= i < |ls|
      ensures PlainLine(ls[i])
    {
      assert ls[i] == w + Lines(content)[i];
      if |Lines(content)[i]| == 0 {
        assert ls[i] == w;
      } else {
        assert ls[i][|ls[i]| - 1] == Lines(content)[i][|Lines(content)[i]| - 1];
      }
    }
    LinesOfTerminated(ls);
  }

  // ---------------------------------------------------------------------------
  // slice
  // ---------------------------------------------------------------------------

  newtype byte = b: int | 0 <= b < 256

  /** The width of `usize` on the 64-bit hosts the generator runs on. */
  const UsizeLimit: nat := 0x1_0000_0000_0000_0000

  datatype SliceError =
    /** "index {start} is out of range {len}" */
    | OutOfRange(start: nat, len: nat)
    /** `start + max_len` overflowing `usize`: a debug build panics on the
        addition, a release build on the slice, whose wrapped end is below
        `start`. */
    | AddOverflow

  /** `slice start max_len content` as written: the end is clamped to one
      before the last byte. */
  function Slice(start: nat, maxLen: nat, content: seq<byte>): Result<seq<byte>, SliceError>
    requires start < UsizeLimit && maxLen < UsizeLimit
  {
    if |content| == 0 then Ok([])
    else if start >= |content| then Err(OutOfRange(start, |content|))
    else if start + maxLen >= UsizeLimit then Err(AddOverflow)
    else
      var end := if start + maxLen < |content| - 1 then start + maxLen else |content| - 1;
      Ok(content[start..end])
  }

  /** `slice` never fails on empty content, rejects a start past the end,
      and otherwise gives at most `max_len` bytes from `start` on, never the
      last byte of the content. */
  lemma SliceSpec(start: nat, maxLen: nat, content: seq<byte>)
    requires start < UsizeLimit && maxLen < UsizeLimit
    ensures |content| == 0 ==> Slice(start, maxLen, content) == Ok([])
    ensures 0 < |content| <= start ==> Slice(start, maxLen, content) == Err(OutOfRange(start, |content|))
    ensures start < |content| && start + maxLen < UsizeLimit ==>
      var r := Slice(start, maxLen, content);
      && r.Ok? && |r.value| <= maxLen
      && start + |r.value| < |content|
      && r.value == content[start..start + |r.value|]
      && |r.value| == (if start + maxLen < |content| - 1 then maxLen else |content| - 1 - start)
  {
  }

  /** The last byte is lost even when `max_len` reaches past it. */
  lemma SliceDropsLastByte(start: nat, maxLen: nat, content: seq<byte>)
    requires start < |content| && maxLen < UsizeLimit && start + maxLen < UsizeLimit
    requires start + maxLen >= |content|
    ensures Slice(start, maxLen, content) == Ok(content[start..|content| - 1])
  {
  }

  /** Asking for the three bytes of "abc" from its start gives "ab". */
  lemma SliceOfAbc()
    ensures Slice(0, 3, [97, 98, 99]) == Ok([97, 98])
    ensures SliceCorrected(0, 3, [97, 98, 99]) == Ok([97, 98, 99])
  {
    var abc: seq<byte> := [97, 98, 99];
    assert abc[0..2] == [97, 98];
    assert abc[0..3] == abc;
  }

  /** `slice` with the end clamped to the length of the content. */
  function SliceCorrected(start: nat, maxLen: nat, content: seq<byte>): Result<seq<byte>, SliceError>
    requires start < UsizeLimit && maxLen < UsizeLimit
  {
    if |content| == 0 then Ok([])
    else if start >= |content| then Err(OutOfRange(start, |content|))
    else if start + maxLen >= UsizeLimit then Err(AddOverflow)
    else
      var end := if start + maxLen < |content| then start + maxLen else |content|;
      Ok(content[start..end])
  }

  /** The corrected slice is the longest piece of at most `max_len` bytes
      from `start`: the whole rest when it fits, and it keeps the last byte. */
  lemma SliceCorrectedSpec(start: nat, maxLen: nat, content: seq<byte>)
    requires start < |content| && maxLen < UsizeLimit && start + maxLen < UsizeLimit
    ensures var r := SliceCorrected(start, maxLen, content);
      && r.Ok? && r.value <= content[start..]
      && |r.value| == (if maxLen < |content| - start then maxLen else |content| - start)
      && (start + maxLen >= |content| ==> r.value == content[start..] && r.value[|r.value| - 1] == content[|content| - 1])
  {
    var r := SliceCorrected(start, maxLen, content).value;
    assert r == content[start..][..|r|];
  }
}
