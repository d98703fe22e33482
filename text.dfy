/** The pieces of Rust's `str` API that the changelog generator relies on
    (`lines`, `trim`, `split_once`, `rsplit_once`, `strip_prefix`, `contains`,
    `replace`), plus splitting and joining on a separator, which the two
    scripts use. Strings are sequences of Unicode scalar values. */
module Text {
  import opened Wrappers

  /** Rust's `char::is_whitespace`: the Unicode White_Space property. */
  predicate IsRustWhitespace(c: char) {
    ('\t' <= c <= '\r') || c == ' ' || c == '\U{85}' || c == '\U{A0}' || c == '\U{1680}'
    || ('\U{2000}' <= c <= '\U{200A}') || c == '\U{2028}' || c == '\U{2029}'
    || c == '\U{202F}' || c == '\U{205F}' || c == '\U{3000}'
  }

  // ---------------------------------------------------------------------------
  // Trimming with a caller-chosen notion of whitespace
  // ---------------------------------------------------------------------------

  /** The index of the first character of `s` at or after `i` that is not
      whitespace (or `|s|`). */
  function SkipForward(s: string, ws: char -> bool, i: nat): (j: nat)
    requires i <= |s|
    ensures i <= j <= |s|
    ensures forall k :: i <= k < j ==> ws(s[k])
    ensures j < |s| ==> !ws(s[j])
    decreases |s| - i
  {
    if i < |s| && ws(s[i]) then SkipForward(s, ws, i + 1) else i
  }

  /** The smallest `j >= lo`, `j <= hi`, such that `s[j..hi]` is all whitespace. */
  function SkipBackward(s: string, ws: char -> bool, lo: nat, hi: nat): (j: nat)
    requires lo <= hi <= |s|
    ensures lo <= j <= hi
    ensures forall k :: j <= k < hi ==> ws(s[k])
    ensures j > lo ==> !ws(s[j - 1])
    decreases hi
  {
    if hi > lo && ws(s[hi - 1]) then SkipBackward(s, ws, lo, hi - 1) else hi
  }

  /** Both ends trimmed: `r` is the slice of `s` between its leading and its
      trailing whitespace. */
  function TrimBy(s: string, ws: char -> bool): (r: string)
    ensures |r| > 0 ==> !ws(r[0]) && !ws(r[|r| - 1])
    ensures exists i, j ::
      && 0 <= i <= j <= |s| && r == s[i..j]
      && (forall k :: 0 <= k < i ==> ws(s[k]))
      && (forall k :: j <= k < |s| ==> ws(s[k]))
  {
    var i := SkipForward(s, ws, 0);
    var j := SkipBackward(s, ws, i, |s|);
    s[i..j]
  }

  /** No whitespace at either end. */
  predicate Trimmed(s: string, ws: char -> bool) {
    |s| == 0 || (!ws(s[0]) && !ws(s[|s| - 1]))
  }

  lemma TrimByTrimmed(s: string, ws: char -> bool)
    requires Trimmed(s, ws)
    ensures TrimBy(s, ws) == s
  {
  }

  /** Rust's `str::trim`. */
  function Trim(s: string): string {
    TrimBy(s, IsRustWhitespace)
  }

  lemma TrimOfTrimmed(s: string)
    requires Trimmed(s, IsRustWhitespace)
    ensures Trim(s) == s
  {
    TrimByTrimmed(s, IsRustWhitespace);
  }

  /** Whitespace in front of a trimmed, non-empty text is removed. */
  lemma TrimPadded(pad: string, t: string)
    requires forall k :: 0 <= k < |pad| ==> IsRustWhitespace(pad[k])
    requires |t| > 0 && Trimmed(t, IsRustWhitespace)
    ensures Trim(pad + t) == t
  {
    var s := pad + t;
    assert s[|pad|] == t[0] && s[|s| - 1] == t[|t| - 1];
    assert forall k :: 0 <= k < |pad| ==> s[k] == pad[k];
    var i := SkipForward(s, IsRustWhitespace, 0);
    assert i == |pad|;
    assert s[i..] == t;
  }

  /** Whitespace on both sides of a trimmed, non-empty text is removed, and
      nothing else. */
  lemma TrimByPadded(pre: string, t: string, post: string, ws: char -> bool)
    requires forall k :: 0 <= k < |pre| ==> ws(pre[k])
    requires forall k :: 0 <= k < |post| ==> ws(post[k])
    requires |t| > 0 && Trimmed(t, ws)
    ensures TrimBy(pre + t + post, ws) == t
  {
    var s := pre + t + post;
    assert forall k :: 0 <= k < |pre| ==> s[k] == pre[k];
    assert forall k :: 0 <= k < |post| ==> s[|pre| + |t| + k] == post[k];
    assert s[|pre|] == t[0] && s[|pre| + |t| - 1] == t[|t| - 1];
    var i := SkipForward(s, ws, 0);
    assert i == |pre|;
    var j := SkipBackward(s, ws, i, |s|);
    assert j == |pre| + |t|;
    assert s[i..j] == t;
  }

  // ---------------------------------------------------------------------------
  // Searching
  // ---------------------------------------------------------------------------

  /** Position of the first `c` in `s`. */
  function IndexOf(s: string, c: char): (r: Option<nat>)
    ensures r.None? <==> c !in s
    ensures r.Some? ==> r.value < |s| && s[r.value] == c && c !in s[..r.value]
  {
    if |s| == 0 then None
    else if s[0] == c then Some(0)
    else
      match IndexOf(s[1..], c)
      case None => None
      case Some(i) =>
        assert s[..i + 1] == [s[0]] + s[1..][..i];
        Some(i + 1)
  }

  /** Position of the last `c` in `s`. */
  function LastIndexOf(s: string, c: char): (r: Option<nat>)
    ensures r.None? <==> c !in s
    ensures r.Some? ==> r.value < |s| && s[r.value] == c && c !in s[r.value + 1..]
  {
    if |s| == 0 then None
    else if s[|s| - 1] == c then Some(|s| - 1)
    else
      var r := LastIndexOf(s[..|s| - 1], c);
      assert s == s[..|s| - 1] + [s[|s| - 1]];
      r
  }

  lemma IndexOfSplit(a: string, c: char, b: string)
    requires c !in a
    ensures IndexOf(a + [c] + b, c) == Some(|a|)
  {
    var s := a + [c] + b;
    assert s[|a|] == c;
  }

  lemma {:induction false} LastIndexOfSplit(a: string, c: char, b: string)
    requires c !in b
    ensures LastIndexOf(a + [c] + b, c) == Some(|a|)
    decreases |b|
  {
    var s := a + [c] + b;
    if |b| > 0 {
      var b' := b[..|b| - 1];
      assert s[|s| - 1] == b[|b| - 1];
      assert s[..|s| - 1] == a + [c] + b';
      LastIndexOfSplit(a, c, b');
    }
  }

  /** `split_once(c)`: the text before and after the first `c`. */
  function SplitOnce(s: string, c: char): (r: Option<(string, string)>)
    ensures r.None? <==> c !in s
    ensures r.Some? ==> s == r.value.0 + [c] + r.value.1 && c !in r.value.0
  {
    match IndexOf(s, c)
    case None => None
    case Some(i) =>
      assert s == s[..i] + [c] + s[i + 1..];
      Some((s[..i], s[i + 1..]))
  }

  /** `rsplit_once(c)`: the text before and after the last `c`. */
  function RSplitOnce(s: string, c: char): (r: Option<(string, string)>)
    ensures r.None? <==> c !in s
    ensures r.Some? ==> s == r.value.0 + [c] + r.value.1 && c !in r.value.1
  {
    match LastIndexOf(s, c)
    case None => None
    case Some(i) =>
      assert s == s[..i] + [c] + s[i + 1..];
      Some((s[..i], s[i + 1..]))
  }

  lemma SplitOnceOf(a: string, c: char, b: string)
    requires c !in a
    ensures SplitOnce(a + [c] + b, c) == Some((a, b))
  {
    IndexOfSplit(a, c, b);
    var s := a + [c] + b;
    assert s[..|a|] == a && s[|a| + 1..] == b;
  }

  lemma RSplitOnceOf(a: string, c: char, b: string)
    requires c !in b
    ensures RSplitOnce(a + [c] + b, c) == Some((a, b))
  {
    LastIndexOfSplit(a, c, b);
    var s := a + [c] + b;
    assert s[..|a|] == a && s[|a| + 1..] == b;
  }

  /** `p` occurs in `s` at position `i`. */
  predicate MatchAt(s: string, p: string, i: nat) {
    i + |p| <= |s| && s[i..i + |p|] == p
  }

  /** `str::contains` with a string pattern. */
  predicate Contains(s: string, p: string) {
    exists i: nat | i <= |s| :: MatchAt(s, p, i)
  }

  lemma ContainsMiddle(a: string, p: string, b: string)
    ensures Contains(a + p + b, p)
  {
    assert (a + p + b)[|a|..|a| + |p|] == p;
    assert MatchAt(a + p + b, p, |a|);
  }

  /** A pattern whose first character does not occur in `s` is not in `s`. */
  lemma NotContainsHead(s: string, p: string)
    requires |p| > 0 && p[0] !in s
    ensures !Contains(s, p)
  {
    forall i: nat | i <= |s| ensures !MatchAt(s, p, i) {
      if i + |p| <= |s| {
        assert s[i..i + |p|][0] == s[i] && s[i] in s;
      }
    }
  }

  /** A single line followed by its line break holds no blank line. */
  lemma NoBlankLine(t: string)
    requires '\n' !in t
    ensures !Contains(t + "\n", "\n\n")
  {
    var s := t + "\n";
    forall i: nat | i <= |s| ensures !MatchAt(s, "\n\n", i) {
      if i + 2 <= |s| {
        assert s[i..i + 2][0] == s[i];
        if i < |t| {
          assert s[i] == t[i];
        }
      }
    }
  }

  /** The largest position `j <= n` at which `p` occurs in `s`. */
  function RFindUpTo(s: string, p: string, n: nat): (r: Option<nat>)
    ensures r.Some? ==> r.value <= n && MatchAt(s, p, r.value)
    ensures r.Some? ==> forall j: nat :: r.value < j <= n ==> !MatchAt(s, p, j)
    ensures r.None? ==> forall j: nat :: j <= n ==> !MatchAt(s, p, j)
    decreases n
  {
    if MatchAt(s, p, n) then Some(n)
    else if n == 0 then None
    else RFindUpTo(s, p, n - 1)
  }

  /** `rfind`: the last position at which `p` occurs in `s`. */
  function RFind(s: string, p: string): (r: Option<nat>)
    ensures r.Some? ==> MatchAt(s, p, r.value) && forall j: nat :: r.value < j ==> !MatchAt(s, p, j)
    ensures r.None? <==> !Contains(s, p)
  {
    RFindUpTo(s, p, |s|)
  }

  /** `rsplit_once(p)` with a string pattern: split around the last occurrence. */
  function RSplitOnceStr(s: string, p: string): (r: Option<(string, string)>)
    ensures r.None? <==> !Contains(s, p)
    ensures r.Some? ==> s == r.value.0 + p + r.value.1
  {
    match RFind(s, p)
    case None => None
    case Some(i) =>
      assert s == s[..i] + s[i..i + |p|] + s[i + |p|..];
      Some((s[..i], s[i + |p|..]))
  }

  /** If `p` is found at position `|a|` of `a + p + b` and nowhere later, the
      split is exactly `(a, b)`. */
  lemma RSplitOnceStrOf(a: string, p: string, b: string)
    requires forall j: nat :: |a| < j ==> !MatchAt(a + p + b, p, j)
    ensures RSplitOnceStr(a + p + b, p) == Some((a, b))
  {
    var s := a + p + b;
    assert s[|a|..|a| + |p|] == p;
    assert MatchAt(s, p, |a|);
    var i := RFind(s, p).value;
    assert i == |a|;
    assert s[..i] == a && s[i + |p|..] == b;
  }

  // ---------------------------------------------------------------------------
  // Prefixes and suffixes
  // ---------------------------------------------------------------------------

  predicate StartsWith(s: string, p: string) {
    |p| <= |s| && s[..|p|] == p
  }

  /** `strip_prefix(p)`. */
  function StripPrefix(s: string, p: string): (r: Option<string>)
    ensures r.Some? <==> StartsWith(s, p)
    ensures r.Some? ==> s == p + r.value
  {
    if StartsWith(s, p) then
      assert s == s[..|p|] + s[|p|..];
      Some(s[|p|..])
    else None
  }

  lemma StripPrefixOf(p: string, t: string)
    ensures StripPrefix(p + t, p) == Some(t)
  {
    assert (p + t)[..|p|] == p;
    assert (p + t)[|p|..] == t;
  }

  predicate EndsWith(s: string, p: string) {
    |p| <= |s| && s[|s| - |p|..] == p
  }

  /** `strip_suffix(p)`. */
  function StripSuffix(s: string, p: string): (r: Option<string>)
    ensures r.Some? <==> EndsWith(s, p)
    ensures r.Some? ==> s == r.value + p
  {
    if EndsWith(s, p) then
      assert s == s[..|s| - |p|] + s[|s| - |p|..];
      Some(s[..|s| - |p|])
    else None
  }

  lemma StripSuffixOf(t: string, p: string)
    ensures StripSuffix(t + p, p) == Some(t)
  {
    assert (t + p)[|t|..] == p;
    assert (t + p)[..|t|] == t;
  }

  // ---------------------------------------------------------------------------
  // Lines
  // ---------------------------------------------------------------------------

  predicate EndsWithCR(l: string) {
    |l| > 0 && l[|l| - 1] == '\r'
  }

  /** A line ending may be `\n` or `\r\n`: drop the `\r` of the latter. */
  function DropCR(l: string): (r: string)
    ensures r == l || (EndsWithCR(l) && r == l[..|l| - 1])
  {
    if EndsWithCR(l) then l[..|l| - 1] else l
  }

  /** Rust's `str::lines`: split at each `\n`, dropping a `\r` just before it;
      a final `\n` does not start another line, so "" has no lines; a bare `\r`
      at the end of an unterminated last line is kept. */
  function Lines(s: string): (r: seq<string>)
    ensures forall i :: 0 <= i < |r| ==> '\n' !in r[i]
    ensures |r| == 0 <==> |s| == 0
    decreases |s|
  {
    if |s| == 0 then []
    else
      match IndexOf(s, '\n')
      case None => [s]
      case Some(i) =>
        var l := DropCR(s[..i]);
        assert '\n' !in l by {
          if l != s[..i] {
            assert l == s[..i][..i - 1];
          }
        }
        [l] + Lines(s[i + 1..])
  }

  /** Every line followed by `\n`: the inverse of `Lines`. */
  function Terminated(ls: seq<string>): string {
    if |ls| == 0 then "" else ls[0] + "\n" + Terminated(ls[1..])
  }

  /** A line that `Lines` gives back unchanged once terminated. */
  predicate PlainLine(l: string) {
    '\n' !in l && !EndsWithCR(l)
  }

  lemma LinesCons(a: string, b: string)
    requires '\n' !in a
    ensures Lines(a + "\n" + b) == [DropCR(a)] + Lines(b)
  {
    IndexOfSplit(a, '\n', b);
    var s := a + "\n" + b;
    assert s[..|a|] == a;
    assert s[|a| + 1..] == b;
  }

  lemma LinesSingle(a: string)
    requires |a| > 0 && '\n' !in a
    ensures Lines(a) == [a]
  {
  }

  /** Terminating plain lines and splitting again gives the same lines. */
  lemma {:induction false} LinesOfTerminated(ls: seq<string>)
    requires forall i :: 0 <= i < |ls| ==> PlainLine(ls[i])
    ensures Lines(Terminated(ls)) == ls
  {
    if |ls| > 0 {
      LinesCons(ls[0], Terminated(ls[1..]));
      LinesOfTerminated(ls[1..]);
    }
  }

  lemma ConsAppend<T>(a: seq<T>, b: seq<T>)
    requires |a| > 0
    ensures [a[0]] + (a[1..] + b) == a + b
  {
    assert a == [a[0]] + a[1..];
  }

  /** Every line is plain. */
  predicate AllPlain(ls: seq<string>) {
    forall i :: 0 <= i < |ls| ==> PlainLine(ls[i])
  }

  lemma AllPlainAppend(a: seq<string>, b: seq<string>)
    requires AllPlain(a) && AllPlain(b)
    ensures AllPlain(a + b)
  {
    forall i | 0 <= i < |a + b| ensures PlainLine((a + b)[i]) {
      if i >= |a| {
        assert (a + b)[i] == b[i - |a|];
      }
    }
  }

  lemma LinesThen(pre: seq<string>, x: string)
    requires |pre| > 0 && PlainLine(pre[0])
    ensures Lines(Terminated(pre) + x) == [pre[0]] + Lines(Terminated(pre[1..]) + x)
  {
    var tail := Terminated(pre[1..]) + x;
    assert Terminated(pre) + x == pre[0] + "\n" + tail;
    LinesCons(pre[0], tail);
  }

  /** Plain lines, terminated, in front of any text come back in front of
      that text's lines. */
  lemma {:induction false} LinesAfter(pre: seq<string>, x: string)
    requires forall i :: 0 <= i < |pre| ==> PlainLine(pre[i])
    ensures Lines(Terminated(pre) + x) == pre + Lines(x)
  {
    if |pre| == 0 {
      assert Terminated(pre) + x == x;
    } else {
      LinesThen(pre, x);
      LinesAfter(pre[1..], x);
      ConsAppend(pre, Lines(x));
    }
  }

  lemma TerminatedAppend(a: seq<string>, b: seq<string>)
    ensures Terminated(a + b) == Terminated(a) + Terminated(b)
  {
    if |a| > 0 {
      assert (a + b)[1..] == a[1..] + b;
      TerminatedAppend(a[1..], b);
    } else {
      assert a + b == b;
    }
  }

  // ---------------------------------------------------------------------------
  // Splitting on and joining with a separator
  // ---------------------------------------------------------------------------

  function Join(parts: seq<string>, sep: string): string {
    if |parts| == 0 then ""
    else if |parts| == 1 then parts[0]
    else parts[0] + sep + Join(parts[1..], sep)
  }

  /** Joining with one more part at the end. */
  lemma {:induction false} JoinSnoc(parts: seq<string>, t: string, sep: string)
    ensures Join(parts + [t], sep) == if |parts| == 0 then t else Join(parts, sep) + sep + t
    decreases |parts|
  {
    if |parts| == 1 {
      assert parts + [t] == [parts[0], t];
    } else if |parts| > 1 {
      assert (parts + [t])[0] == parts[0];
      assert (parts + [t])[1..] == parts[1..] + [t];
      JoinSnoc(parts[1..], t, sep);
    } else {
      assert parts + [t] == [t];
    }
  }

  /** Non-empty parts join to something empty only when there are none. */
  lemma JoinEmpty(parts: seq<string>, sep: string)
    requires forall i :: 0 <= i < |parts| ==> |parts[i]| > 0
    ensures |Join(parts, sep)| == 0 <==> |parts| == 0
  {
    if |parts| > 1 {
      assert |Join(parts, sep)| >= |parts[0]|;
    }
  }

  /** Python's `str.split(c)`: the pieces between the occurrences of `c`;
      there is always one more piece than there are separators. */
  function Split(s: string, c: char): (r: seq<string>)
    ensures |r| >= 1
    ensures forall i :: 0 <= i < |r| ==> c !in r[i]
    decreases |s|
  {
    match IndexOf(s, c)
    case None => [s]
    case Some(i) => [s[..i]] + Split(s[i + 1..], c)
  }

  /** Splitting and joining back with the same separator is the identity. */
  lemma {:induction false} JoinSplit(s: string, c: char)
    ensures Join(Split(s, c), [c]) == s
    decreases |s|
  {
    match IndexOf(s, c)
    case None =>
    case Some(i) =>
      var rest := Split(s[i + 1..], c);
      assert Split(s, c) == [s[..i]] + rest;
      assert ([s[..i]] + rest)[1..] == rest;
      JoinSplit(s[i + 1..], c);
      assert s == s[..i] + [c] + s[i + 1..];
  }

  /** Joining separator-free pieces and splitting again gives the pieces. */
  lemma {:induction false} SplitJoin(parts: seq<string>, c: char)
    requires |parts| >= 1
    requires forall i :: 0 <= i < |parts| ==> c !in parts[i]
    ensures Split(Join(parts, [c]), c) == parts
  {
    if |parts| > 1 {
      SplitJoin(parts[1..], c);
      IndexOfSplit(parts[0], c, Join(parts[1..], [c]));
      var s := Join(parts, [c]);
      assert s[..|parts[0]|] == parts[0];
      assert s[|parts[0]| + 1..] == Join(parts[1..], [c]);
    }
  }

  // ---------------------------------------------------------------------------
  // Replacing a character
  // ---------------------------------------------------------------------------

  /** `str::replace` with a one-character pattern. */
  function ReplaceChar(s: string, c: char, rep: string): string {
    if |s| == 0 then ""
    else (if s[0] == c then rep else [s[0]]) + ReplaceChar(s[1..], c, rep)
  }

  lemma {:induction false} ReplaceCharAppend(a: string, b: string, c: char, rep: string)
    ensures ReplaceChar(a + b, c, rep) == ReplaceChar(a, c, rep) + ReplaceChar(b, c, rep)
  {
    if |a| > 0 {
      assert (a + b)[1..] == a[1..] + b;
      ReplaceCharAppend(a[1..], b, c, rep);
    } else {
      assert a + b == b;
    }
  }

  /** Without an occurrence of `c` nothing is replaced. */
  lemma {:induction false} ReplaceCharAbsent(s: string, c: char, rep: string)
    requires c !in s
    ensures ReplaceChar(s, c, rep) == s
    decreases |s|
  {
    if |s| > 0 {
      assert s[0] != c;
      ReplaceCharAbsent(s[1..], c, rep);
    }
  }

  /** After the replacement every character comes from `rep` or is a
      character of `s` other than `c`. */
  lemma {:induction false} ReplaceCharMembers(s: string, c: char, rep: string, x: char)
    requires x in ReplaceChar(s, c, rep)
    ensures x in rep || (x in s && x != c)
  {
    if |s| > 0 {
      var head := if s[0] == c then rep else [s[0]];
      if x !in head {
        ReplaceCharMembers(s[1..], c, rep, x);
      }
    }
  }
}
