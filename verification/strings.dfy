/**
 * The Python string operations the analyzer relies on, written out over
 * `string` (= `seq<char>`): substring tests (`p in s`), code-point order
 * (`a < b`), whitespace splitting (`s.split()`), splitting on one character
 * (`s.split(".")`), joining, `str.replace`, `str.strip` and dotted paths.
 */
module Strings {

  /** Python `p in s` for two strings: `p` occurs in `s` as a contiguous run of characters. */
  predicate IsSubstring(p: string, s: string) {
    exists i | 0 <= i <= |s| - |p| :: p <= s[i..]
  }

  /** `p in s and p != s`, the test the greedy pruning passes use. */
  predicate IsProperSubstring(p: string, s: string) {
    IsSubstring(p, s) && p != s
  }

  lemma SubstringOfItself(s: string)
    ensures IsSubstring(s, s)
  {
    assert s <= s[0..];
  }

  // ---------------------------------------------------------------------------
  // Code-point order (Python `<` on str)

  /** Python's `a < b` on strings: lexicographic by code point, a proper prefix first. */
  predicate LexLess(a: string, b: string) {
    if |a| == 0 then |b| > 0
    else if |b| == 0 then false
    else if a[0] != b[0] then a[0] < b[0]
    else LexLess(a[1..], b[1..])
  }

  lemma {:induction false} LexIrreflexive(a: string)
    ensures !LexLess(a, a)
  {
    if |a| > 0 {
      LexIrreflexive(a[1..]);
    }
  }

  lemma {:induction false} LexTransitive(a: string, b: string, c: string)
    requires LexLess(a, b) && LexLess(b, c)
    ensures LexLess(a, c)
  {
    if |a| > 0 && |b| > 0 && |c| > 0 && a[0] == b[0] == c[0] {
      LexTransitive(a[1..], b[1..], c[1..]);
    }
  }

  lemma {:induction false} LexTotal(a: string, b: string)
    requires a != b
    ensures LexLess(a, b) || LexLess(b, a)
  {
    if |a| > 0 && |b| > 0 && a[0] == b[0] {
      assert a == [a[0]] + a[1..] && b == [b[0]] + b[1..];
      LexTotal(a[1..], b[1..]);
    }
  }

  // ---------------------------------------------------------------------------
  // Whitespace and `str.split()` with no argument

  /** The characters for which Python's `str.isspace()` holds. */
  predicate IsSpace(c: char) {
    ('\t' <= c <= '\r') || ('\U{1C}' <= c <= '\U{1F}') || c == ' '
    || c == '\U{85}' || c == '\U{A0}' || c == '\U{1680}'
    || ('\U{2000}' <= c <= '\U{200A}') || c == '\U{2028}' || c == '\U{2029}'
    || c == '\U{202F}' || c == '\U{205F}' || c == '\U{3000}'
  }

  predicate NoSpace(s: string) {
    forall i | 0 <= i < |s| :: !IsSpace(s[i])
  }

  /** `s` with its leading whitespace removed. */
  function DropSpaces(s: string): (r: string)
    ensures |r| <= |s| && r == s[|s| - |r|..]
    ensures r == [] || !IsSpace(r[0])
  {
    if |s| > 0 && IsSpace(s[0]) then DropSpaces(s[1..]) else s
  }

  /** The longest prefix of `s` without whitespace. */
  function TakeWord(s: string): (w: string)
    ensures w <= s && NoSpace(w)
    ensures |w| < |s| ==> IsSpace(s[|w|])
  {
    if |s| > 0 && !IsSpace(s[0]) then [s[0]] + TakeWord(s[1..]) else []
  }

  /** Python `s.split()`: the maximal runs of non-whitespace characters, in order. */
  function Words(s: string): seq<string>
    decreases |s|
  {
    var t := DropSpaces(s);
    if t == [] then []
    else
      var w := TakeWord(t);
      [w] + Words(t[|w|..])
  }

  /** Python `len(s.split())`, the word count that orders phrases. */
  function WordCount(s: string): nat {
    |Words(s)|
  }

  lemma {:induction false} TakeWordOf(w: string, rest: string)
    requires NoSpace(w)
    requires rest == [] || IsSpace(rest[0])
    ensures TakeWord(w + rest) == w
  {
    if |w| > 0 {
      assert (w + rest)[1..] == w[1..] + rest;
      TakeWordOf(w[1..], rest);
    } else {
      assert w + rest == rest;
    }
  }

  lemma WordsAfterSpace(x: string)
    ensures Words([' '] + x) == Words(x)
  {
    assert DropSpaces([' '] + x) == DropSpaces(x) by {
      assert ([' '] + x)[1..] == x;
    }
  }

  /** A single word without whitespace splits to itself. */
  lemma WordsOfWord(w: string)
    requires w != [] && NoSpace(w)
    ensures Words(w) == [w]
  {
    TakeWordOf(w, []);
    assert w + [] == w;
    assert w[|w|..] == [];
  }

  /** A word followed by a space and more text: the word, then the words of the rest. */
  lemma WordsOfCons(w: string, rest: string)
    requires w != [] && NoSpace(w)
    ensures Words(w + ([' '] + rest)) == [w] + Words(rest)
  {
    var s := w + ([' '] + rest);
    assert DropSpaces(s) == s;
    TakeWordOf(w, [' '] + rest);
    assert s[|w|..] == [' '] + rest;
    WordsAfterSpace(rest);
  }

  /** Splitting words joined by single spaces gives the words back. */
  lemma {:induction false} WordsOfJoin(ws: seq<string>)
    requires forall i | 0 <= i < |ws| :: ws[i] != [] && NoSpace(ws[i])
    ensures Words(Join(ws, " ")) == ws
  {
    if |ws| == 1 {
      WordsOfWord(ws[0]);
    } else if |ws| > 1 {
      var tail := ws[1..];
      var joined := Join(tail, " ");
      assert Join(ws, " ") == ws[0] + " " + joined;
      assert ws[0] + " " + joined == ws[0] + ([' '] + joined);
      WordsOfCons(ws[0], joined);
      assert forall i | 0 <= i < |tail| :: tail[i] == ws[i + 1];
      WordsOfJoin(tail);
      assert ws == [ws[0]] + tail;
    }
  }

  // ---------------------------------------------------------------------------
  // Joining and `str.split(sep)` on one character

  /** Python `sep.join(parts)`. */
  function Join(parts: seq<string>, sep: string): string {
    if |parts| == 0 then ""
    else if |parts| == 1 then parts[0]
    else parts[0] + sep + Join(parts[1..], sep)
  }

  /** Python `s.split(c)` for a one-character separator: never empty. */
  function Split(s: string, c: char): (parts: seq<string>)
    ensures |parts| >= 1
  {
    if |s| == 0 then [""]
    else if s[0] == c then [""] + Split(s[1..], c)
    else
      var rest := Split(s[1..], c);
      [[s[0]] + rest[0]] + rest[1..]
  }

  lemma {:induction false} JoinSplit(s: string, c: char)
    ensures Join(Split(s, c), [c]) == s
  {
    if |s| > 0 {
      JoinSplit(s[1..], c);
      var rest := Split(s[1..], c);
      if s[0] == c {
        assert s == [c] + s[1..];
      } else if |rest| == 1 {
        assert s == [s[0]] + s[1..];
      } else {
        assert s == [s[0]] + s[1..];
        assert rest == [rest[0]] + rest[1..];
      }
    }
  }

  /** `split` undoes `join` when no part contains the separator. */
  lemma {:induction false} SplitJoin(parts: seq<string>, c: char)
    requires |parts| >= 1
    requires forall i | 0 <= i < |parts| :: c !in parts[i]
    ensures Split(Join(parts, [c]), c) == parts
  {
    if |parts| == 1 {
      SplitNoSep(parts[0], c);
    } else {
      SplitJoin(parts[1..], c);
      SplitPrefix(parts[0], Join(parts[1..], [c]), c);
      assert parts == [parts[0]] + parts[1..];
    }
  }

  lemma {:induction false} SplitNoSep(s: string, c: char)
    requires c !in s
    ensures Split(s, c) == [s]
  {
    if |s| > 0 {
      assert s[1..] <= s[1..] && c !in s[1..];
      SplitNoSep(s[1..], c);
      assert s == [s[0]] + s[1..];
    }
  }

  lemma {:induction false} SplitPrefix(w: string, rest: string, c: char)
    requires c !in w
    ensures Split(w + [c] + rest, c) == [w] + Split(rest, c)
  {
    if |w| == 0 {
      assert w + [c] + rest == [c] + rest;
      assert ([c] + rest)[1..] == rest;
    } else {
      assert (w + [c] + rest)[1..] == w[1..] + [c] + rest;
      assert c !in w[1..];
      SplitPrefix(w[1..], rest, c);
      assert w == [w[0]] + w[1..];
    }
  }

  /** Splitting two strings joined by the separator gives the parts of each, in turn. */
  lemma {:induction false} SplitAppend(p: string, q: string, c: char)
    ensures Split(p + [c] + q, c) == Split(p, c) + Split(q, c)
  {
    if p == [] {
      assert p + [c] + q == [c] + q;
      assert ([c] + q)[1..] == q;
    } else {
      assert (p + [c] + q)[1..] == p[1..] + [c] + q;
      SplitAppend(p[1..], q, c);
    }
  }

  /** No part of `s.split(c)` contains `c`. */
  lemma {:induction false} SplitPartsFree(s: string, c: char)
    ensures forall i | 0 <= i < |Split(s, c)| :: c !in Split(s, c)[i]
  {
    if |s| > 0 {
      SplitPartsFree(s[1..], c);
    }
  }

  /** Joining the parts after the first `k` with a one-character separator drops at least `k` characters. */
  lemma {:induction false} JoinDropLength(parts: seq<string>, sep: string, k: nat)
    requires |sep| == 1 && k < |parts|
    ensures |Join(parts[k..], sep)| + k <= |Join(parts, sep)|
  {
    if k > 0 {
      JoinDropLength(parts[1..], sep, k - 1);
      assert parts[1..][k - 1..] == parts[k..];
    }
  }

  /** The last component of `s.split(c)`, Python `s.split(c)[-1]`. */
  function LastPart(s: string, c: char): string {
    var parts := Split(s, c);
    parts[|parts| - 1]
  }

  // ---------------------------------------------------------------------------
  // Dotted paths

  /** `f"{path}.{seg}" if path else seg`: the dotted path one level down. */
  function ExtendPath(path: string, seg: string): string {
    if path == "" then seg else path + "." + seg
  }

  // ---------------------------------------------------------------------------
  // `str.replace` and `str.strip`

  /**
   * Python `s.replace(pat, rep)`: every non-overlapping occurrence of `pat`,
   * scanning left to right, becomes `rep`; an empty `pat` puts `rep` before
   * every character and at the end.
   */
  function ReplaceAll(s: string, pat: string, rep: string): string
    decreases |s|
  {
    if pat == "" then
      if |s| == 0 then rep else rep + [s[0]] + ReplaceAll(s[1..], pat, rep)
    else if |s| < |pat| then s
    else if pat <= s then rep + ReplaceAll(s[|pat|..], pat, rep)
    else [s[0]] + ReplaceAll(s[1..], pat, rep)
  }

  /** A string that does not contain the pattern is left as it is. */
  lemma {:induction false} ReplaceAbsent(s: string, pat: string, rep: string)
    requires pat != "" && !IsSubstring(pat, s)
    ensures ReplaceAll(s, pat, rep) == s
  {
    if |s| >= |pat| {
      assert !(pat <= s[0..]);
      assert s[0..] == s;
      forall i | 0 <= i <= |s[1..]| - |pat|
        ensures !(pat <= s[1..][i..])
      {
        assert s[1..][i..] == s[i + 1..];
      }
      ReplaceAbsent(s[1..], pat, rep);
      assert s == [s[0]] + s[1..];
    }
  }

  /** Python `s.strip()`: leading and trailing whitespace removed. */
  function Strip(s: string): (r: string)
    ensures r == [] || (!IsSpace(r[0]) && !IsSpace(r[|r| - 1]))
    ensures IsSubstring(r, s)
  {
    var t := DropSpaces(s);
    var r := DropTrailingSpaces(t);
    assert r <= s[|s| - |t|..];
    assert IsSubstring(r, s) by {
      assert 0 <= |s| - |t| <= |s| - |r|;
    }
    r
  }

  function DropTrailingSpaces(s: string): (r: string)
    ensures r <= s
    ensures r == [] || !IsSpace(r[|r| - 1])
    ensures r != [] && s != [] ==> r[0] == s[0]
  {
    if |s| > 0 && IsSpace(s[|s| - 1]) then DropTrailingSpaces(s[..|s| - 1]) else s
  }

  predicate IsAsciiDigit(c: char) {
    '0' <= c <= '9'
  }

  predicate IsAscii(c: char) {
    (c as int) < 128
  }
}
