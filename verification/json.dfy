/**
 * Records as the analyzer sees them after `json.load`: a tree of dicts,
 * lists and scalars. A dict is the ordered sequence of its entries, because
 * Python dicts iterate in insertion order and the walkers depend on that
 * order.
 */
module Json {
  import opened Wrappers
  import Seqs

  datatype Json =
    | Null
    | Bool(b: bool)
    | Num(n: int)
    | Str(s: string)
    | Arr(elems: seq<Json>)
    | Obj(fields: seq<Field>)

  datatype Field = Field(key: string, value: Json)

  /** Neither a dict nor a list. */
  predicate IsScalar(j: Json) {
    !j.Obj? && !j.Arr?
  }

  /** Python's `bool(x)`: None, False, 0, "", [] and {} are false. */
  predicate Truthy(j: Json) {
    match j
    case Null => false
    case Bool(b) => b
    case Num(n) => n != 0
    case Str(s) => s != ""
    case Arr(e) => e != []
    case Obj(f) => f != []
  }

  /** The keys of a dict, in insertion order. */
  function Keys(fs: seq<Field>): (ks: seq<string>)
    ensures |ks| == |fs| && forall i | 0 <= i < |fs| :: ks[i] == fs[i].key
  {
    if fs == [] then [] else [fs[0].key] + Keys(fs[1..])
  }

  /** No key occurs twice, as in every Python dict. */
  predicate UniqueKeys(fs: seq<Field>) {
    forall i, j | 0 <= i < j < |fs| :: fs[i].key != fs[j].key
  }

  /** `d.get(k)`: the value stored under `k`, if any. */
  function Get(fs: seq<Field>, k: string): (r: Option<Json>)
    ensures r.None? <==> k !in Keys(fs)
  {
    if fs == [] then None
    else if fs[0].key == k then Some(fs[0].value)
    else Get(fs[1..], k)
  }

  /** `d[k] = v`: replaces the value of an existing key in place, or appends a new entry. */
  function Put(fs: seq<Field>, k: string, v: Json): (r: seq<Field>)
    ensures Get(r, k) == Some(v)
    ensures k in Keys(fs) ==> Keys(r) == Keys(fs)
    ensures k !in Keys(fs) ==> Keys(r) == Keys(fs) + [k]
  {
    if fs == [] then [Field(k, v)]
    else if fs[0].key == k then
      var r := [Field(k, v)] + fs[1..];
      assert r[1..] == fs[1..];
      r
    else
      var t := Put(fs[1..], k, v);
      var r := [fs[0]] + t;
      assert r[1..] == t;
      assert Keys(fs) == [fs[0].key] + Keys(fs[1..]);
      r
  }

  /** Without its last entry a dict still has distinct keys, none of them the last entry's. */
  lemma UniqueInit(fs: seq<Field>)
    requires fs != [] && UniqueKeys(fs)
    ensures UniqueKeys(fs[..|fs| - 1]) && fs[|fs| - 1].key !in Keys(fs[..|fs| - 1])
  {
    var init := fs[..|fs| - 1];
    forall i | 0 <= i < |init| ensures Keys(init)[i] != fs[|fs| - 1].key {
      assert fs[i].key != fs[|fs| - 1].key;
    }
  }

  /** The keys of a dict are those of its entries but the last, then the last one's. */
  lemma KeysLast(fs: seq<Field>)
    requires fs != []
    ensures Keys(fs) == Keys(fs[..|fs| - 1]) + [fs[|fs| - 1].key]
  {
  }

  /** Storing under the first entry's key replaces that entry. */
  lemma PutHere(fs: seq<Field>, k: string, v: Json)
    requires fs != [] && fs[0].key == k
    ensures Put(fs, k, v) == [Field(k, v)] + fs[1..]
  {
  }

  /** Storing under a key the first entry does not have leaves that entry first. */
  lemma PutPast(fs: seq<Field>, k: string, v: Json)
    requires fs != [] && fs[0].key != k
    ensures Put(fs, k, v) == [fs[0]] + Put(fs[1..], k, v)
  {
  }

  /** Storing under one key leaves every other key's value as it was. */
  lemma {:induction false} PutOther(fs: seq<Field>, k: string, v: Json, k': string)
    requires k' != k
    ensures Get(Put(fs, k, v), k') == Get(fs, k')
  {
    if fs != [] && fs[0].key != k {
      PutOther(fs[1..], k, v, k');
      PutPast(fs, k, v);
      Seqs.AppendTail([fs[0]], Put(fs[1..], k, v));
    } else if fs != [] {
      PutHere(fs, k, v);
      Seqs.AppendTail([Field(k, v)], fs[1..]);
    }
  }

  /** The value `d.get(k)` finds is the value of one of the dict's entries. */
  lemma {:induction false} GetIsEntry(fs: seq<Field>, k: string)
    ensures Get(fs, k).Some? ==> exists i | 0 <= i < |fs| :: fs[i].value == Get(fs, k).value
  {
    if fs != [] && fs[0].key != k {
      GetIsEntry(fs[1..], k);
      if Get(fs, k).Some? {
        var i :| 0 <= i < |fs[1..]| && fs[1..][i].value == Get(fs, k).value;
        assert fs[i + 1].value == Get(fs, k).value;
      }
    }
  }

  /** Storing back the value a key already has changes nothing. */
  lemma {:induction false} PutSame(fs: seq<Field>, k: string, v: Json)
    requires Get(fs, k) == Some(v)
    ensures Put(fs, k, v) == fs
  {
    Seqs.SplitFirst(fs);
    if fs[0].key != k {
      PutSame(fs[1..], k, v);
      PutPast(fs, k, v);
    } else {
      PutHere(fs, k, v);
    }
  }

  /** Every entry after `d[k] = v` is the new entry or one that was already there. */
  lemma {:induction false} PutEntries(fs: seq<Field>, k: string, v: Json)
    ensures forall i | 0 <= i < |Put(fs, k, v)| :: Put(fs, k, v)[i] == Field(k, v) || Put(fs, k, v)[i] in fs
  {
    if fs != [] && fs[0].key != k {
      PutEntries(fs[1..], k, v);
      var r := Put(fs, k, v);
      forall i | 0 < i < |r| ensures r[i] == Field(k, v) || r[i] in fs {
        assert r[i] == Put(fs[1..], k, v)[i - 1];
      }
    } else if fs != [] {
      var r := Put(fs, k, v);
      forall i | 0 < i < |r| ensures r[i] in fs {
        assert r[i] == fs[i];
      }
    }
  }

  /** Storing under a key keeps a dict's keys distinct. */
  lemma {:induction false} PutUnique(fs: seq<Field>, k: string, v: Json)
    requires UniqueKeys(fs)
    ensures UniqueKeys(Put(fs, k, v))
  {
    var r := Put(fs, k, v);
    var ks, rs := Keys(fs), Keys(r);
    assert rs == ks || (k !in ks && rs == ks + [k]);
    forall i, j | 0 <= i < j < |r| ensures r[i].key != r[j].key {
      assert rs[i] == r[i].key && rs[j] == r[j].key;
      assert ks[i] == fs[i].key;
      if j < |fs| {
        assert ks[j] == fs[j].key;
      } else {
        assert ks[i] in ks;
      }
    }
  }

  /** Python's `str(x)` for a scalar. */
  function ScalarStr(j: Json): string
    requires IsScalar(j)
  {
    match j
    case Null => "None"
    case Bool(b) => if b then "True" else "False"
    case Num(n) => IntStr(n)
    case Str(s) => s
  }

  /** Python's `repr(x)`, as it appears inside `str` of a list or dict. */
  function Repr(j: Json): string
    decreases j, 1
  {
    if j.Str? then StrRepr(j.s) else PyStr(j)
  }

  /**
   * `repr` of a string: the text between quotes, with a backslash, the
   * quote character and the ASCII control characters escaped. The quote is
   * `'` unless the text holds a `'` and no `"`. Every non-ASCII character
   * is taken as printable and kept as it is.
   */
  function StrRepr(s: string): (r: string)
    ensures |r| >= 2 && r[0] == QuoteFor(s) && r[|r| - 1] == QuoteFor(s)
  {
    [QuoteFor(s)] + Escaped(s, QuoteFor(s)) + [QuoteFor(s)]
  }

  function QuoteFor(s: string): char {
    if '\'' in s && '"' !in s then '"' else '\''
  }

  /** The characters of `s` as they stand inside `repr`'s quotes `q`. */
  function Escaped(s: string, q: char): string
    decreases |s|
  {
    if s == [] then [] else EscapeChar(s[0], q) + Escaped(s[1..], q)
  }

  function EscapeChar(c: char, q: char): string {
    if c == '\\' then "\\\\"
    else if c == q then ['\\', q]
    else if c == '\n' then "\\n"
    else if c == '\r' then "\\r"
    else if c == '\t' then "\\t"
    else if c < ' ' || c == '\U{7F}' then "\\x" + [HexDigit(c as int / 16), HexDigit(c as int % 16)]
    else [c]
  }

  /** The lower-case hexadecimal digit for `d`. */
  function HexDigit(d: int): char
    requires 0 <= d < 16
  {
    if d < 10 then Digit(d) else ('a' as int + d - 10) as char
  }

  /** A string needing no escape and no change of quote is its text between single quotes. */
  lemma {:induction false} PlainStrRepr(s: string)
    requires forall i | 0 <= i < |s| :: s[i] != '\'' && s[i] != '\\' && ' ' <= s[i] && s[i] != '\U{7F}'
    ensures StrRepr(s) == "'" + s + "'"
  {
    PlainEscaped(s, '\'');
  }

  lemma {:induction false} PlainEscaped(s: string, q: char)
    requires forall i | 0 <= i < |s| :: s[i] != q && s[i] != '\\' && ' ' <= s[i] && s[i] != '\U{7F}'
    ensures Escaped(s, q) == s
    decreases |s|
  {
    if s != [] {
      PlainEscaped(s[1..], q);
    }
  }

  /** A string holding `'` but no `"` is quoted with `"`, and its `'` is not escaped. */
  lemma DoubleQuoted(s: string)
    requires '\'' in s && '"' !in s
    ensures StrRepr(s)[0] == '"' && EscapeChar('\'', QuoteFor(s)) == "'"
  {
  }

  /** Python's `str(x)`: a list as `[a, b]`, a dict as `{'k': v}`. */
  function PyStr(j: Json): (r: string)
    ensures IsScalar(j) ==> r == ScalarStr(j)
    decreases j, 0
  {
    match j
    case Arr(es) => "[" + ReprItems(es) + "]"
    case Obj(fs) => "{" + ReprFields(fs) + "}"
    case _ => ScalarStr(j)
  }

  function ReprItems(es: seq<Json>): string
    decreases es
  {
    if es == [] then ""
    else if |es| == 1 then Repr(es[0])
    else Repr(es[0]) + ", " + ReprItems(es[1..])
  }

  function ReprFields(fs: seq<Field>): string
    decreases fs
  {
    if fs == [] then ""
    else
      var head := StrRepr(fs[0].key) + ": " + Repr(fs[0].value);
      if |fs| == 1 then head else head + ", " + ReprFields(fs[1..])
  }

  /** Python's `str(n)` for an integer. */
  function IntStr(n: int): (r: string)
    ensures r != []
    decreases if n < 0 then -n + 1 else n
  {
    if n < 0 then "-" + IntStr(-n)
    else if n < 10 then [Digit(n)]
    else IntStr(n / 10) + [Digit(n % 10)]
  }

  /** The ASCII digit for `d`. */
  function Digit(d: int): (c: char)
    requires 0 <= d < 10
    ensures '0' <= c <= '9' && c as int - '0' as int == d
  {
    ('0' as int + d) as char
  }
}
