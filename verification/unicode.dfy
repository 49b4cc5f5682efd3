/**
 * `normalize_unicode` from `utils/unicode.py`: known non-ASCII characters
 * are replaced by ASCII text from a fixed table, then every character that
 * is still not ASCII is dropped (`encode("ascii", "ignore")`).
 *
 * The table's regular expression is an alternation of single characters, so
 * `sub` replaces character by character and never rescans a replacement.
 */
module Unicode {
  import opened Wrappers
  import Strings

  /** `UNICODE_SUBSTITUTIONS`: the replacement of a character the table lists. */
  function Substitution(c: char): Option<string> {
    match c
    case '\U{92}' => Some("")
    case '\U{96}' => Some("")
    case '\U{A0}' => Some(" ")
    case '\U{A7}' => Some("section")
    case '\U{A9}' => Some("(C)")
    case '\U{AE}' => Some("(R)")
    case '\U{B0}' => Some(" degree ")
    case '\U{B5}' => Some("u")
    case '\U{BD}' => Some(".5")
    case '\U{C9}' => Some("E")
    case '\U{D6}' => Some("O")
    case '\U{D8}' => Some("O")
    case '\U{DF}' => Some("beta")
    case '\U{E4}' => Some("a")
    case '\U{E5}' => Some("a")
    case '\U{E9}' => Some("e")
    case '\U{EF}' => Some("i")
    case '\U{F6}' => Some("o")
    case '\U{FC}' => Some("u")
    case '\U{3B1}' => Some("alpha")
    case '\U{3B2}' => Some("beta")
    case '\U{3BC}' => Some("u")
    case '\U{2009}' => Some(" ")
    case '\U{2011}' => Some("-")
    case '\U{2012}' => Some("-")
    case '\U{2013}' => Some("-")
    case '\U{2014}' => Some("-")
    case '\U{2018}' => Some("'")
    case '\U{2019}' => Some("'")
    case '\U{201C}' => Some("\"")
    case '\U{201D}' => Some("\"")
    case '\U{2022}' => Some("-")
    case '\U{2026}' => Some("...")
    case '\U{2122}' => Some("(TM)")
    case '\U{2228}' => Some("|")
    case '\U{2265}' => Some(">=")
    case '\U{FFFD}' => Some("")
    case _ => None
  }

  predicate AllAscii(s: string) {
    forall i | 0 <= i < |s| :: Strings.IsAscii(s[i])
  }

  /** What `_unicode_sub_re.sub(replace_match, ...)` puts in place of one character. */
  function SubChar(c: char): string {
    if Substitution(c).Some? then Substitution(c).value else [c]
  }

  /** The table substitution over a whole text. */
  function Substitute(s: string): (r: string)
    decreases |s|
  {
    if s == [] then [] else SubChar(s[0]) + Substitute(s[1..])
  }

  /** `s.encode("ascii", "ignore").decode("ascii")`: the ASCII characters of `s`, in order. */
  function AsciiOnly(s: string): (r: string)
    ensures AllAscii(r) && |r| <= |s|
    decreases |s|
  {
    if s == [] then []
    else
      var rest := AsciiOnly(s[1..]);
      if Strings.IsAscii(s[0]) then [s[0]] + rest else rest
  }

  /** `normalize_unicode(text)`. */
  function NormalizeUnicode(s: string): (r: string)
    ensures AllAscii(r)
  {
    AsciiOnly(Substitute(s))
  }

  /** No key of the table is ASCII, so the table never touches ASCII text. */
  lemma KeysNotAscii(c: char)
    requires Strings.IsAscii(c)
    ensures Substitution(c).None?
  {
  }

  /** Every replacement in the table is ASCII. */
  lemma ValuesAscii(c: char)
    requires Substitution(c).Some?
    ensures AllAscii(Substitution(c).value)
  {
    var v := Substitution(c).value;
    assert v in {"", " ", "section", "(C)", "(R)", " degree ", "u", ".5", "E", "O", "beta", "a", "e", "i", "o",
      "alpha", "-", "'", "\"", "...", "(TM)", "|", ">="};
  }

  /** Both passes work character by character, so normalizing distributes over concatenation. */
  lemma {:induction false} SubstituteAppend(a: string, b: string)
    ensures Substitute(a + b) == Substitute(a) + Substitute(b)
    decreases |a|
  {
    if a != [] {
      assert (a + b)[1..] == a[1..] + b;
      SubstituteAppend(a[1..], b);
    } else {
      assert a + b == b;
    }
  }

  lemma {:induction false} AsciiOnlyAppend(a: string, b: string)
    ensures AsciiOnly(a + b) == AsciiOnly(a) + AsciiOnly(b)
    decreases |a|
  {
    if a != [] {
      assert (a + b)[1..] == a[1..] + b;
      AsciiOnlyAppend(a[1..], b);
    } else {
      assert a + b == b;
    }
  }

  lemma NormalizeAppend(a: string, b: string)
    ensures NormalizeUnicode(a + b) == NormalizeUnicode(a) + NormalizeUnicode(b)
  {
    SubstituteAppend(a, b);
    AsciiOnlyAppend(Substitute(a), Substitute(b));
  }

  /** An ASCII text is kept as it is by the filter. */
  lemma {:induction false} AsciiOnlyKeeps(s: string)
    requires AllAscii(s)
    ensures AsciiOnly(s) == s
    decreases |s|
  {
    if s != [] {
      AsciiOnlyKeeps(s[1..]);
    }
  }

  /**
   * One character: a table character becomes its replacement, an ASCII
   * character stays, any other character is deleted.
   */
  lemma NormalizeChar(c: char)
    ensures NormalizeUnicode([c])
      == if Substitution(c).Some? then Substitution(c).value else if Strings.IsAscii(c) then [c] else []
  {
    assert Substitute([c]) == SubChar(c) + Substitute([]) == SubChar(c);
    if Substitution(c).Some? {
      ValuesAscii(c);
      AsciiOnlyKeeps(Substitution(c).value);
    } else {
      assert AsciiOnly([c]) == (if Strings.IsAscii(c) then [c] else []) + AsciiOnly([]);
    }
  }

  /** An ASCII text is its own normal form. */
  lemma {:induction false} AsciiUnchanged(s: string)
    requires AllAscii(s)
    ensures NormalizeUnicode(s) == s
    decreases |s|
  {
    if s != [] {
      AsciiUnchanged(s[1..]);
      KeysNotAscii(s[0]);
      NormalizeChar(s[0]);
      assert s == [s[0]] + s[1..];
      NormalizeAppend([s[0]], s[1..]);
    }
  }

  /** `normalize_unicode` is idempotent. */
  lemma NormalizeIdempotent(s: string)
    ensures NormalizeUnicode(NormalizeUnicode(s)) == NormalizeUnicode(s)
  {
    AsciiUnchanged(NormalizeUnicode(s));
  }
}
