/**
 * `phrase_stripper`: removing or replacing a phrase in the string fields of
 * a record, at a dotted path.
 *
 * The Python functions rewrite `container[key_or_index]` inside the caller's
 * nested dicts and lists. Here a record is a `Json` value held in the field
 * `data` of a `Record` object; each path operation is a function from the old
 * tree to the new one, and the methods of `Record` assign that new tree to
 * `data`. Where a path segment names a place, the result is described leaf by
 * leaf through `ValueAt`, the value reached by a sequence of dict keys and
 * list positions.
 */
module PhraseStripper {
  import opened Wrappers
  import opened Strings
  import opened Json
  import PathUtils
  import Seqs

  // ---------------------------------------------------------------------------
  // Places inside a record

  /** One step down a record: a dict key, or a list position counted from the front. */
  datatype Step = Key(key: string) | Index(i: nat)

  /** The node one step below `j`, if there is one. */
  function Child(j: Json, s: Step): (r: Option<Json>)
    ensures r.Some? ==> r.value < j
  {
    match s
    case Key(k) =>
      if j.Obj? then GetIsEntry(j.fields, k); Get(j.fields, k) else None
    case Index(i) =>
      if j.Arr? && i < |j.elems| then Some(j.elems[i]) else None
  }

  /** The node reached from `j` by the steps of `p`, if there is one. */
  function ValueAt(j: Json, p: seq<Step>): Option<Json>
    decreases |p|
  {
    if p == [] then Some(j)
    else
      match Child(j, p[0])
      case None => None
      case Some(c) => ValueAt(c, p[1..])
  }

  /** The position Python's `es[n]` reads, for `-len <= n < len`. */
  function Wrap(n: int, len: nat): (i: nat)
    requires -(len as int) <= n < len
    ensures i < len
    ensures n >= 0 ==> i == n
  {
    if n < 0 then n + len else n
  }

  /**
   * `_replace_if_match` and `_strip_in_place` on the value they read: a
   * string containing the phrase has every occurrence replaced (by "" when
   * stripping); anything else stays as it is.
   */
  function ReplaceIfMatch(v: Json, phrase: string, replaceWith: string): Json {
    if v.Str? && IsSubstring(phrase, v.s) then Str(ReplaceAll(v.s, phrase, replaceWith)) else v
  }

  /**
   * `after` differs from `before` at the place `p` only as a rewrite says:
   * the place exists in both or in neither, and a scalar there becomes
   * `ReplaceIfMatch` of itself when `addressed`, and keeps its value
   * otherwise.
   */
  predicate LeafRewritten(before: Json, after: Json, p: seq<Step>, addressed: bool, phrase: string, replaceWith: string) {
    (ValueAt(after, p).Some? <==> ValueAt(before, p).Some?)
    && (ValueAt(before, p).Some? && IsScalar(ValueAt(before, p).value) ==>
          ValueAt(after, p) ==
            Some(if addressed then ReplaceIfMatch(ValueAt(before, p).value, phrase, replaceWith)
                 else ValueAt(before, p).value))
  }

  /** A step that leads nowhere in either tree. */
  lemma NoPlace(cur: Json, n: Json, p: seq<Step>, addressed: bool, phrase: string, replaceWith: string)
    requires p != [] && Child(cur, p[0]).None? && Child(n, p[0]).None?
    ensures LeafRewritten(cur, n, p, addressed, phrase, replaceWith)
  {
  }

  /** A first step to the same child in both trees. */
  lemma Kept(cur: Json, n: Json, p: seq<Step>, phrase: string, replaceWith: string)
    requires p != [] && Child(cur, p[0]).Some? && Child(n, p[0]) == Child(cur, p[0])
    ensures LeafRewritten(cur, n, p, false, phrase, replaceWith)
  {
  }

  /** A tree is its own unrewritten copy. */
  lemma Unchanged(cur: Json, p: seq<Step>, phrase: string, replaceWith: string)
    ensures LeafRewritten(cur, cur, p, false, phrase, replaceWith)
  {
  }

  /** A rewrite of the child at the first step is a rewrite of the whole tree. */
  lemma Below(cur: Json, n: Json, p: seq<Step>, addressed: bool, phrase: string, replaceWith: string)
    requires p != [] && Child(cur, p[0]).Some? && Child(n, p[0]).Some?
    requires LeafRewritten(Child(cur, p[0]).value, Child(n, p[0]).value, p[1..], addressed, phrase, replaceWith)
    ensures LeafRewritten(cur, n, p, addressed, phrase, replaceWith)
  {
  }

  /** Rewriting a value itself addresses exactly the empty place. */
  lemma RewrittenSelf(v: Json, q: seq<Step>, phrase: string, replaceWith: string)
    ensures LeafRewritten(v, ReplaceIfMatch(v, phrase, replaceWith), q, q == [], phrase, replaceWith)
  {
    var r := ReplaceIfMatch(v, phrase, replaceWith);
    if q != [] {
      if v.Str? {
        assert r.Str?;
        ScalarEnds(v, q);
        ScalarEnds(r, q);
      } else {
        assert r == v;
      }
    }
  }

  /** Nothing lies below a scalar. */
  lemma ScalarEnds(j: Json, p: seq<Step>)
    requires IsScalar(j) && p != []
    ensures ValueAt(j, p).None?
  {
    assert Child(j, p[0]).None?;
  }

  /** Nodes of the same kind have children at the same steps. */
  lemma SameKindChild(a: Json, b: Json, s: Step)
    requires SameKind(a, b)
    ensures Child(b, s).None? <==> Child(a, s).None?
  {
  }

  /** The children of a list after `es[i] = e`. */
  lemma ListChild(es: seq<Json>, i: nat, e: Json, s: Step)
    requires i < |es|
    ensures Child(Arr(es[i := e]), s) == if s == Index(i) then Some(e) else Child(Arr(es), s)
  {
  }

  /** The children of a dict after `d[k] = v`. */
  lemma DictChild(fs: seq<Field>, k: string, v: Json, s: Step)
    ensures Child(Obj(Put(fs, k, v)), s) == if s == Key(k) then Some(v) else Child(Obj(fs), s)
  {
    if s.Key? && s.key != k {
      PutOther(fs, k, v, s.key);
    }
  }

  /** `b` is a node of the same kind as `a`: a dict with the same keys, a list of the same length, or a scalar. */
  predicate SameKind(a: Json, b: Json) {
    (a.Obj? <==> b.Obj?) && (a.Arr? <==> b.Arr?)
    && (a.Obj? ==> Keys(a.fields) == Keys(b.fields))
    && (a.Arr? ==> |a.elems| == |b.elems|)
  }

  // ---------------------------------------------------------------------------
  // traverse_and_replace_phrase

  /**
   * `_recurse_and_replace(current, parts, ...)`: the tree after the call, or
   * the exception it lets through. A `*` segment applies the rest of the
   * path to each element of a list, and does nothing elsewhere; on a dict a
   * segment is a key, on a list it goes through `int(...)`. No key is ever
   * added or removed and no list changes length.
   */
  function ReplaceAt(cur: Json, parts: seq<string>, phrase: string, replaceWith: string): (r: Result<Json>)
    ensures r.Ok? ==> SameKind(cur, r.value)
    decreases cur, 1
  {
    if parts == [] then Ok(cur)
    else if parts[0] == "*" then
      if cur.Arr? then
        match ReplaceEach(cur.elems, parts[1..], phrase, replaceWith)
        case Ok(es) => Ok(Arr(es))
        case Err(e) => Err(e)
      else Ok(cur)
    else if cur.Obj? then ReplaceInDict(cur, parts[0], parts[1..], phrase, replaceWith)
    else if cur.Arr? then ReplaceInList(cur, parts[0], parts[1..], phrase, replaceWith)
    else Ok(cur)
  }

  /** The dict case: a missing key changes nothing; the last segment rewrites the value, others go down into it. */
  function ReplaceInDict(cur: Json, key: string, rest: seq<string>, phrase: string, replaceWith: string): (r: Result<Json>)
    requires cur.Obj?
    ensures r.Ok? ==> r.value.Obj? && Keys(r.value.fields) == Keys(cur.fields)
    decreases cur, 0
  {
    match Child(cur, Key(key))
    case None => Ok(cur)
    case Some(v) =>
      if rest == [] then Ok(Obj(Put(cur.fields, key, ReplaceIfMatch(v, phrase, replaceWith))))
      else
        match ReplaceAt(v, rest, phrase, replaceWith)
        case Ok(v') => Ok(Obj(Put(cur.fields, key, v')))
        case Err(e) => Err(e)
  }

  /**
   * The list case: `int(key)` failing, or an index not below the length,
   * changes nothing; a negative index counts from the end. Below `-len` the
   * `IndexError` is caught at the last segment (nothing changes) and escapes
   * otherwise.
   */
  function ReplaceInList(cur: Json, key: string, rest: seq<string>, phrase: string, replaceWith: string): (r: Result<Json>)
    requires cur.Arr?
    ensures r.Ok? ==> r.value.Arr? && |r.value.elems| == |cur.elems|
    decreases cur, 0
  {
    var es := cur.elems;
    match PathUtils.ParseInt(key)
    case None => Ok(cur)
    case Some(n) =>
      if n >= |es| then Ok(cur)
      else if n < -|es| then
        if rest == [] then Ok(cur) else Err(IndexError)
      else
        var i := Wrap(n, |es|);
        var item := es[i];
        if rest == [] then Ok(Arr(es[i := ReplaceIfMatch(item, phrase, replaceWith)]))
        else
          assert item in es;
          match ReplaceAt(item, rest, phrase, replaceWith)
          case Ok(e') => Ok(Arr(es[i := e']))
          case Err(e) => Err(e)
  }

  /** The `for item in current` loop of the `*` case: each element in turn, stopping at the first exception. */
  function ReplaceEach(es: seq<Json>, rest: seq<string>, phrase: string, replaceWith: string): (r: Result<seq<Json>>)
    ensures r.Ok? ==> |r.value| == |es|
    ensures r.Ok? ==> forall i | 0 <= i < |es| :: ReplaceAt(es[i], rest, phrase, replaceWith) == Ok(r.value[i])
    ensures r.Err? ==> exists i | 0 <= i < |es| :: ReplaceAt(es[i], rest, phrase, replaceWith) == Err(r.error)
    decreases es, 2
  {
    if es == [] then Ok([])
    else
      match ReplaceAt(es[0], rest, phrase, replaceWith)
      case Err(e) => Err(e)
      case Ok(x) =>
        match ReplaceEach(es[1..], rest, phrase, replaceWith)
        case Err(e) =>
          assert forall i | 0 <= i < |es[1..]| :: es[1..][i] == es[i + 1];
          Err(e)
        case Ok(xs) => Ok([x] + xs)
  }

  /**
   * Whether segment `key` of a path, applied at node `cur`, goes down the
   * step `s`; `last` says whether it is the final segment.
   */
  predicate Selects(cur: Json, key: string, s: Step, last: bool) {
    if key == "*" then cur.Arr? && s.Index? && !last
    else
      match cur
      case Obj(_) => s == Key(key)
      case Arr(es) =>
        var n := PathUtils.ParseInt(key);
        s.Index? && n.Some? && -|es| <= n.value < |es| && s.i == Wrap(n.value, |es|)
      case _ => false
  }

  /** Whether `p` leads from `cur` to a place the path `parts` rewrites. */
  predicate Addressed(cur: Json, parts: seq<string>, p: seq<Step>)
    decreases |parts|
  {
    parts != [] && p != [] && Child(cur, p[0]).Some?
    && Selects(cur, parts[0], p[0], |parts| == 1)
    && if |parts| == 1 then |p| == 1 else Addressed(Child(cur, p[0]).value, parts[1..], p[1..])
  }

  /** `after` is `before` rewritten by `traverse_and_replace_phrase` with the path `parts`, at the place `p`. */
  predicate RewrittenAt(before: Json, after: Json, parts: seq<string>, phrase: string, replaceWith: string, p: seq<Step>) {
    LeafRewritten(before, after, p, Addressed(before, parts, p), phrase, replaceWith)
  }

  /**
   * What `_recurse_and_replace` rewrites, place by place: every place of the
   * tree is still there afterwards, a scalar at a place the path addresses
   * becomes `ReplaceIfMatch` of itself, and every other scalar keeps its
   * value.
   */
  lemma {:induction false} ReplaceAtLeaves(cur: Json, parts: seq<string>, phrase: string, replaceWith: string, p: seq<Step>)
    requires ReplaceAt(cur, parts, phrase, replaceWith).Ok?
    ensures RewrittenAt(cur, ReplaceAt(cur, parts, phrase, replaceWith).value, parts, phrase, replaceWith, p)
    decreases cur, 1
  {
    var n := ReplaceAt(cur, parts, phrase, replaceWith).value;
    if parts == [] || p == [] {
      assert !Addressed(cur, parts, p);
      assert IsScalar(cur) ==> n == cur;
    } else if Child(cur, p[0]).None? {
      SameKindChild(cur, n, p[0]);
      NoPlace(cur, n, p, Addressed(cur, parts, p), phrase, replaceWith);
    } else if parts[0] == "*" {
      StarLeaves(cur, parts, phrase, replaceWith, p);
    } else if cur.Obj? {
      DictLeaves(cur, parts, phrase, replaceWith, p);
    } else {
      ListLeaves(cur, parts, phrase, replaceWith, p);
    }
  }

  lemma {:induction false} StarLeaves(cur: Json, parts: seq<string>, phrase: string, replaceWith: string, p: seq<Step>)
    requires parts != [] && parts[0] == "*" && p != [] && Child(cur, p[0]).Some?
    requires ReplaceAt(cur, parts, phrase, replaceWith).Ok?
    ensures RewrittenAt(cur, ReplaceAt(cur, parts, phrase, replaceWith).value, parts, phrase, replaceWith, p)
    decreases cur, 0
  {
    var n := ReplaceAt(cur, parts, phrase, replaceWith).value;
    var rest, s := parts[1..], p[0];
    if cur.Arr? {
      var es' := ReplaceEach(cur.elems, rest, phrase, replaceWith).value;
      assert n == Arr(es');
      var c := cur.elems[s.i];
      assert ReplaceAt(c, rest, phrase, replaceWith) == Ok(es'[s.i]);
      assert Child(n, s) == Some(es'[s.i]);
      ReplaceAtLeaves(c, rest, phrase, replaceWith, p[1..]);
      if rest == [] {
        Unselected(cur, n, parts, phrase, replaceWith, p);
      } else {
        RewrittenBelow(cur, n, parts, phrase, replaceWith, p);
      }
    } else {
      assert n == cur;
      Unselected(cur, n, parts, phrase, replaceWith, p);
    }
  }

  lemma {:induction false} DictLeaves(cur: Json, parts: seq<string>, phrase: string, replaceWith: string, p: seq<Step>)
    requires cur.Obj? && parts != [] && parts[0] != "*" && p != [] && Child(cur, p[0]).Some?
    requires ReplaceAt(cur, parts, phrase, replaceWith).Ok?
    ensures RewrittenAt(cur, ReplaceAt(cur, parts, phrase, replaceWith).value, parts, phrase, replaceWith, p)
    decreases cur, 0
  {
    var key, rest, s := parts[0], parts[1..], p[0];
    var r := ReplaceInDict(cur, key, rest, phrase, replaceWith);
    assert ReplaceAt(cur, parts, phrase, replaceWith) == r;
    var n := r.value;
    var fs := cur.fields;
    match Child(cur, Key(key)) {
      case None =>
        assert n == cur;
        Unselected(cur, n, parts, phrase, replaceWith, p);
      case Some(v) =>
        var v' := if rest == [] then ReplaceIfMatch(v, phrase, replaceWith) else ReplaceAt(v, rest, phrase, replaceWith).value;
        assert n == Obj(Put(fs, key, v'));
        if s == Key(key) {
          assert Child(n, s) == Some(v');
          if rest != [] {
            ReplaceAtLeaves(v, rest, phrase, replaceWith, p[1..]);
            RewrittenBelow(cur, n, parts, phrase, replaceWith, p);
          } else {
            ReplacedHere(cur, n, parts, phrase, replaceWith, p);
          }
        } else {
          PutOther(fs, key, v', s.key);
          assert Child(n, s) == Child(cur, s);
          Unselected(cur, n, parts, phrase, replaceWith, p);
        }
    }
  }

  lemma {:induction false} ListLeaves(cur: Json, parts: seq<string>, phrase: string, replaceWith: string, p: seq<Step>)
    requires cur.Arr? && parts != [] && parts[0] != "*" && p != [] && Child(cur, p[0]).Some?
    requires ReplaceAt(cur, parts, phrase, replaceWith).Ok?
    ensures RewrittenAt(cur, ReplaceAt(cur, parts, phrase, replaceWith).value, parts, phrase, replaceWith, p)
    decreases cur, 0
  {
    var key, rest, s := parts[0], parts[1..], p[0];
    ListSelects(cur, key, s, |parts| == 1);
    var r := ReplaceInList(cur, key, rest, phrase, replaceWith);
    assert ReplaceAt(cur, parts, phrase, replaceWith) == r;
    var n := r.value;
    var es := cur.elems;
    var m := PathUtils.ParseInt(key);
    if m.Some? && -|es| <= m.value < |es| {
      var i := Wrap(m.value, |es|);
      var e' := if rest == [] then ReplaceIfMatch(es[i], phrase, replaceWith) else ReplaceAt(es[i], rest, phrase, replaceWith).value;
      assert n == Arr(es[i := e']);
      ListChild(es, i, e', s);
      if s == Index(i) {
        if rest != [] {
          ReplaceAtLeaves(es[i], rest, phrase, replaceWith, p[1..]);
          RewrittenBelow(cur, n, parts, phrase, replaceWith, p);
        } else {
          ReplacedHere(cur, n, parts, phrase, replaceWith, p);
        }
      } else {
        Unselected(cur, n, parts, phrase, replaceWith, p);
      }
    } else {
      assert n == cur;
      Unselected(cur, n, parts, phrase, replaceWith, p);
    }
  }

  lemma Unselected(cur: Json, n: Json, parts: seq<string>, phrase: string, replaceWith: string, p: seq<Step>)
    requires parts != [] && p != [] && Child(cur, p[0]).Some? && Child(n, p[0]) == Child(cur, p[0])
    requires !Selects(cur, parts[0], p[0], |parts| == 1)
    ensures RewrittenAt(cur, n, parts, phrase, replaceWith, p)
  {
    Kept(cur, n, p, phrase, replaceWith);
    assert !Addressed(cur, parts, p);
  }

  lemma ReplacedHere(cur: Json, n: Json, parts: seq<string>, phrase: string, replaceWith: string, p: seq<Step>)
    requires |parts| == 1 && p != [] && Child(cur, p[0]).Some? && Selects(cur, parts[0], p[0], true)
    requires Child(n, p[0]) == Some(ReplaceIfMatch(Child(cur, p[0]).value, phrase, replaceWith))
    ensures RewrittenAt(cur, n, parts, phrase, replaceWith, p)
  {
    RewrittenSelf(Child(cur, p[0]).value, p[1..], phrase, replaceWith);
    Below(cur, n, p, p[1..] == [], phrase, replaceWith);
    if |p| == 1 {
      AddressedLast(cur, parts, p);
    } else {
      assert !Addressed(cur, parts, p);
    }
  }

  lemma RewrittenBelow(cur: Json, n: Json, parts: seq<string>, phrase: string, replaceWith: string, p: seq<Step>)
    requires |parts| > 1 && p != [] && Child(cur, p[0]).Some? && Selects(cur, parts[0], p[0], false)
    requires Child(n, p[0]).Some?
    requires RewrittenAt(Child(cur, p[0]).value, Child(n, p[0]).value, parts[1..], phrase, replaceWith, p[1..])
    ensures RewrittenAt(cur, n, parts, phrase, replaceWith, p)
  {
    Below(cur, n, p, Addressed(Child(cur, p[0]).value, parts[1..], p[1..]), phrase, replaceWith);
    assert Addressed(cur, parts, p) == Addressed(Child(cur, p[0]).value, parts[1..], p[1..]);
  }

  lemma AddressedLast(cur: Json, parts: seq<string>, p: seq<Step>)
    requires |parts| == 1 && |p| == 1 && Child(cur, p[0]).Some? && Selects(cur, parts[0], p[0], true)
    ensures Addressed(cur, parts, p)
  {
  }

  /** On a list, a segment other than `*` selects the position `int(key)` reads, when it is in range. */
  lemma ListSelects(cur: Json, key: string, s: Step, last: bool)
    requires cur.Arr? && key != "*"
    ensures Selects(cur, key, s, last) <==>
      var m := PathUtils.ParseInt(key);
      m.Some? && -|cur.elems| <= m.value < |cur.elems| && s == Index(Wrap(m.value, |cur.elems|))
  {
  }

  /** Only a negative list index can raise: a path none of whose segments reads as a negative integer always succeeds. */
  lemma {:induction false} ReplaceAtOk(cur: Json, parts: seq<string>, phrase: string, replaceWith: string)
    requires forall k | 0 <= k < |parts| :: NotNegative(parts[k])
    ensures ReplaceAt(cur, parts, phrase, replaceWith).Ok?
    decreases cur, 1
  {
    if parts != [] {
      var rest := parts[1..];
      assert forall k | 0 <= k < |rest| :: rest[k] == parts[k + 1];
      if parts[0] == "*" {
        if cur.Arr? {
          ReplaceEachOk(cur.elems, rest, phrase, replaceWith);
        }
      } else if cur.Obj? {
        match Child(cur, Key(parts[0])) {
          case None =>
          case Some(v) =>
            if rest != [] {
              ReplaceAtOk(v, rest, phrase, replaceWith);
            }
        }
      } else if cur.Arr? {
        var es := cur.elems;
        var m := PathUtils.ParseInt(parts[0]);
        assert NotNegative(parts[0]);
        if m.Some? && m.value < |es| && rest != [] {
          ReplaceAtOk(es[m.value], rest, phrase, replaceWith);
        }
      }
    }
  }

  lemma {:induction false} ReplaceEachOk(es: seq<Json>, rest: seq<string>, phrase: string, replaceWith: string)
    requires forall k | 0 <= k < |rest| :: NotNegative(rest[k])
    ensures ReplaceEach(es, rest, phrase, replaceWith).Ok?
    decreases es, 2
  {
    if es != [] {
      ReplaceAtOk(es[0], rest, phrase, replaceWith);
      ReplaceEachOk(es[1..], rest, phrase, replaceWith);
    }
  }

  /** `int(key)` either fails or is not negative. */
  predicate NotNegative(key: string) {
    PathUtils.ParseInt(key).None? || PathUtils.ParseInt(key).value >= 0
  }

  // ---------------------------------------------------------------------------
  // delete_phrase_at_path

  /** Whether, reading `t` from its start, a `]` comes before any `[`: the lookahead `[^\[]*\]`. */
  predicate ClosesFirst(t: string)
    decreases |t|
  {
    t != [] && (t[0] == ']' || (t[0] != '[' && ClosesFirst(t[1..])))
  }

  /** `re.split(r"\.(?![^\[]*\])", path)`: the path cut at every `.` that does not sit inside brackets. */
  function PathParts(s: string): (parts: seq<string>)
    ensures |parts| >= 1
  {
    if |s| == 0 then [""]
    else if s[0] == '.' && !ClosesFirst(s[1..]) then [""] + PathParts(s[1..])
    else
      var rest := PathParts(s[1..]);
      [[s[0]] + rest[0]] + rest[1..]
  }

  /** Joining the parts with `.` gives the path back. */
  lemma {:induction false} PathPartsJoin(s: string)
    ensures Join(PathParts(s), ".") == s
  {
    if |s| > 0 {
      PathPartsJoin(s[1..]);
      var rest := PathParts(s[1..]);
      if s[0] == '.' && !ClosesFirst(s[1..]) {
        assert s == "." + s[1..];
      } else if |rest| == 1 {
        assert s == [s[0]] + s[1..];
      } else {
        assert s == [s[0]] + s[1..];
        assert rest == [rest[0]] + rest[1..];
      }
    }
  }

  /** Without brackets the split is `path.split(".")`, the one `traverse_and_replace_phrase` uses. */
  lemma {:induction false} PathPartsPlain(s: string)
    requires '[' !in s && ']' !in s
    ensures PathParts(s) == Split(s, '.')
  {
    if |s| > 0 {
      assert s[1..] <= s[1..] && ']' !in s[1..] && '[' !in s[1..];
      PathPartsPlain(s[1..]);
      NoCloser(s[1..]);
    }
  }

  lemma {:induction false} NoCloser(t: string)
    requires ']' !in t
    ensures !ClosesFirst(t)
  {
    if t != [] {
      assert ']' !in t[1..];
      NoCloser(t[1..]);
    }
  }

  /** Python's `\w` on ASCII text. */
  predicate IsWordChar(c: char) {
    'a' <= c <= 'z' || 'A' <= c <= 'Z' || '0' <= c <= '9' || c == '_'
  }

  /** The longest run of word characters at the start of `s`. */
  function WordPrefix(s: string): (w: string)
    ensures w <= s && forall i | 0 <= i < |w| :: IsWordChar(w[i])
    ensures |w| < |s| ==> !IsWordChar(s[|w|])
  {
    if s != [] && IsWordChar(s[0]) then [s[0]] + WordPrefix(s[1..]) else []
  }

  /** The longest run of digits at the start of `s`. */
  function DigitPrefix(s: string): (d: string)
    ensures d <= s && forall i | 0 <= i < |d| :: IsAsciiDigit(d[i])
    ensures |d| < |s| ==> !IsAsciiDigit(s[|d|])
  {
    if s != [] && IsAsciiDigit(s[0]) then [s[0]] + DigitPrefix(s[1..]) else []
  }

  /** The optional subscript of a segment: none, `[*]`, or `[n]`. */
  datatype Subscript = Whole | Every | Nth(n: nat)

  /** A parsed segment: the key and its subscript. */
  datatype Part = Part(key: string, sub: Subscript)

  /**
   * `re.match(r"(\w+)(?:\[(\*|\d+)\])?", part)`: the run of word
   * characters at the start is the key, and a `[*]` or `[digits]` right
   * after it is the subscript; whatever follows is ignored. No word
   * character at the start is no match.
   */
  function ParsePart(part: string): (r: Option<Part>)
    ensures r.Some? ==> r.value.key != [] && r.value.key <= part
  {
    var key := WordPrefix(part);
    if key == [] then None else Some(Part(key, SubscriptOf(part[|key|..])))
  }

  /** The subscript at the start of `after`, if it is `[*]` or `[digits]`. */
  function SubscriptOf(after: string): Subscript {
    if |after| >= 3 && after[..3] == "[*]" then Every
    else if after != [] && after[0] == '[' then
      var d := DigitPrefix(after[1..]);
      if d != [] && 1 + |d| < |after| && after[1 + |d|] == ']' then Nth(PathUtils.DigitsValue(d)) else Whole
    else Whole
  }

  /** A segment written out: `key`, `key[*]` or `key[n]`. */
  function Render(part: Part): string {
    part.key + RenderSubscript(part.sub)
  }

  function RenderSubscript(sub: Subscript): string {
    match sub
    case Whole => ""
    case Every => "[*]"
    case Nth(n) => "[" + IntStr(n) + "]"
  }

  /** Parsing a written-out segment gives it back. */
  lemma ParsePartRender(part: Part)
    requires part.key != [] && forall i | 0 <= i < |part.key| :: IsWordChar(part.key[i])
    ensures ParsePart(Render(part)) == Some(part)
  {
    var tail := RenderSubscript(part.sub);
    WordPrefixOf(part.key, tail);
    assert Render(part)[|part.key|..] == tail;
    SubscriptRender(part.sub);
  }

  lemma SubscriptRender(sub: Subscript)
    ensures SubscriptOf(RenderSubscript(sub)) == sub
  {
    if sub.Nth? {
      IndexRender(sub.n);
    }
  }

  lemma IndexRender(n: nat)
    ensures SubscriptOf("[" + IntStr(n) + "]") == Nth(n)
  {
    var digits := IntStr(n);
    var tail := "[" + digits + "]";
    IntStrAllDigits(n);
    assert tail[1] == digits[0];
    assert tail[..3] != "[*]";
    assert tail[1..] == digits + "]";
    DigitPrefixOf(digits, "]");
    assert DigitPrefix(tail[1..]) == digits;
    assert tail[1 + |digits|] == ']';
    PathUtils.IntStrDigits(n);
  }

  lemma {:induction false} WordPrefixOf(w: string, tail: string)
    requires forall i | 0 <= i < |w| :: IsWordChar(w[i])
    requires tail == [] || !IsWordChar(tail[0])
    ensures WordPrefix(w + tail) == w
  {
    if w != [] {
      assert (w + tail)[1..] == w[1..] + tail;
      WordPrefixOf(w[1..], tail);
    }
  }

  lemma {:induction false} DigitPrefixOf(d: string, tail: string)
    requires forall i | 0 <= i < |d| :: IsAsciiDigit(d[i])
    requires tail == [] || !IsAsciiDigit(tail[0])
    ensures DigitPrefix(d + tail) == d
  {
    if d != [] {
      assert (d + tail)[1..] == d[1..] + tail;
      DigitPrefixOf(d[1..], tail);
    }
  }

  lemma {:induction false} IntStrAllDigits(n: nat)
    ensures forall i | 0 <= i < |IntStr(n)| :: IsAsciiDigit(IntStr(n)[i])
    decreases n
  {
    if n >= 10 {
      IntStrAllDigits(n / 10);
    }
  }

  /**
   * `_navigate_and_strip(current, parts, phrase)`: the tree after the call.
   * Only a dict is navigated; a segment that does not parse, a missing key
   * or a key holding None ends the walk. Otherwise the value under the key
   * is rewritten as its subscript says.
   */
  function NavigateStrip(cur: Json, parts: seq<string>, phrase: string): (r: Json)
    ensures SameKind(cur, r)
    decreases cur, 2
  {
    if parts == [] || !cur.Obj? then cur
    else
      match ParsePart(parts[0])
      case None => cur
      case Some(part) =>
        match Child(cur, Key(part.key))
        case None => cur
        case Some(next) =>
          if next.Null? then cur
          else Obj(Put(cur.fields, part.key, NavigateValue(next, part.sub, parts[1..], phrase)))
  }

  /**
   * What becomes of `current[key]`: without a subscript it is stripped at
   * the last segment and navigated otherwise; `[*]` navigates every element
   * of a list; `[n]` strips or navigates element `n` of a list when
   * `0 <= n < len`. A subscript on anything but a list changes nothing.
   */
  function NavigateValue(next: Json, sub: Subscript, rest: seq<string>, phrase: string): (r: Json)
    ensures SameKind(next, r)
    decreases next, 3
  {
    match sub
    case Whole =>
      if rest == [] then ReplaceIfMatch(next, phrase, "") else NavigateStrip(next, rest, phrase)
    case Every =>
      if next.Arr? then Arr(NavigateEach(next.elems, rest, phrase)) else next
    case Nth(i) =>
      if next.Arr? && i < |next.elems| then
        var es := next.elems;
        Arr(es[i := if rest == [] then ReplaceIfMatch(es[i], phrase, "") else NavigateStrip(es[i], rest, phrase)])
      else next
  }

  /** The `for item in next_level` loop of `[*]`. */
  function NavigateEach(es: seq<Json>, rest: seq<string>, phrase: string): (r: seq<Json>)
    ensures |r| == |es| && forall i | 0 <= i < |es| :: r[i] == NavigateStrip(es[i], rest, phrase)
    decreases es, 4
  {
    if es == [] then [] else [NavigateStrip(es[0], rest, phrase)] + NavigateEach(es[1..], rest, phrase)
  }

  /** Whether `p` leads from `cur` to a place `_navigate_and_strip` with the segments `parts` strips. */
  predicate NavAddressed(cur: Json, parts: seq<string>, p: seq<Step>)
    decreases |parts|, 1
  {
    parts != [] && cur.Obj? && ParsePart(parts[0]).Some? && p != []
    && p[0] == Key(ParsePart(parts[0]).value.key)
    && Child(cur, p[0]).Some? && !Child(cur, p[0]).value.Null?
    && ValueAddressed(Child(cur, p[0]).value, ParsePart(parts[0]).value.sub, parts[1..], p[1..])
  }

  /** Whether `q` leads from `current[key]` to a place the subscript and the remaining segments strip. */
  predicate ValueAddressed(next: Json, sub: Subscript, rest: seq<string>, q: seq<Step>)
    decreases |rest| + 1, 0
  {
    match sub
    case Whole => if rest == [] then q == [] else NavAddressed(next, rest, q)
    case Every =>
      rest != [] && next.Arr? && q != [] && q[0].Index? && Child(next, q[0]).Some?
      && NavAddressed(Child(next, q[0]).value, rest, q[1..])
    case Nth(i) =>
      next.Arr? && i < |next.elems| && q != [] && q[0] == Index(i)
      && if rest == [] then |q| == 1 else NavAddressed(next.elems[i], rest, q[1..])
  }

  /**
   * What `_navigate_and_strip` rewrites, place by place: every place is
   * still there, a scalar at a place the segments address loses every
   * occurrence of the phrase when it is a string containing it, and every
   * other scalar keeps its value.
   */
  lemma {:induction false} NavigateLeaves(cur: Json, parts: seq<string>, phrase: string, p: seq<Step>)
    ensures LeafRewritten(cur, NavigateStrip(cur, parts, phrase), p, NavAddressed(cur, parts, p), phrase, "")
    decreases cur, 2
  {
    var n := NavigateStrip(cur, parts, phrase);
    if parts == [] || !cur.Obj? || ParsePart(parts[0]).None? {
      assert n == cur && !NavAddressed(cur, parts, p);
      Unchanged(cur, p, phrase, "");
      return;
    }
    var part := ParsePart(parts[0]).value;
    var found := Child(cur, Key(part.key));
    if found.None? || found.value.Null? {
      assert n == cur && !NavAddressed(cur, parts, p);
      Unchanged(cur, p, phrase, "");
      return;
    }
    var next := found.value;
    var next' := NavigateValue(next, part.sub, parts[1..], phrase);
    assert n == Obj(Put(cur.fields, part.key, next'));
    if p == [] {
      assert !NavAddressed(cur, parts, p);
    } else {
      DictChild(cur.fields, part.key, next', p[0]);
      if p[0] == Key(part.key) {
        NavigateValueLeaves(next, part.sub, parts[1..], phrase, p[1..]);
        Below(cur, n, p, ValueAddressed(next, part.sub, parts[1..], p[1..]), phrase, "");
        assert NavAddressed(cur, parts, p) == ValueAddressed(next, part.sub, parts[1..], p[1..]);
      } else if Child(cur, p[0]).Some? {
        Kept(cur, n, p, phrase, "");
        assert !NavAddressed(cur, parts, p);
      } else {
        NoPlace(cur, n, p, NavAddressed(cur, parts, p), phrase, "");
      }
    }
  }

  lemma {:induction false} NavigateValueLeaves(next: Json, sub: Subscript, rest: seq<string>, phrase: string, q: seq<Step>)
    ensures LeafRewritten(next, NavigateValue(next, sub, rest, phrase), q, ValueAddressed(next, sub, rest, q), phrase, "")
    decreases next, 3
  {
    var n := NavigateValue(next, sub, rest, phrase);
    match sub {
      case Whole =>
        if rest == [] {
          RewrittenSelf(next, q, phrase, "");
        } else {
          NavigateLeaves(next, rest, phrase, q);
        }
      case Every =>
        if !next.Arr? {
          Unchanged(next, q, phrase, "");
        } else if q != [] {
          SameKindChild(next, n, q[0]);
          if Child(next, q[0]).Some? {
            var c := Child(next, q[0]).value;
            assert Child(n, q[0]) == Some(NavigateStrip(c, rest, phrase));
            NavigateLeaves(c, rest, phrase, q[1..]);
            Below(next, n, q, NavAddressed(c, rest, q[1..]), phrase, "");
          } else {
            NoPlace(next, n, q, false, phrase, "");
          }
        }
      case Nth(i) =>
        if next.Arr? && i < |next.elems| {
          var es := next.elems;
          var e' := if rest == [] then ReplaceIfMatch(es[i], phrase, "") else NavigateStrip(es[i], rest, phrase);
          assert n == Arr(es[i := e']);
          if q != [] {
            ListChild(es, i, e', q[0]);
            if q[0] == Index(i) {
              if rest == [] {
                RewrittenSelf(es[i], q[1..], phrase, "");
                Below(next, n, q, q[1..] == [], phrase, "");
              } else {
                NavigateLeaves(es[i], rest, phrase, q[1..]);
                Below(next, n, q, NavAddressed(es[i], rest, q[1..]), phrase, "");
              }
            } else if Child(next, q[0]).Some? {
              Kept(next, n, q, phrase, "");
            } else {
              NoPlace(next, n, q, false, phrase, "");
            }
          }
        } else {
          Unchanged(next, q, phrase, "");
        }
    }
  }

  /** `field[*]` as the last segment strips nothing: the loop hands each element an empty path. */
  lemma EveryLastStripsNothing(cur: Json, part: string, phrase: string)
    requires ParsePart(part).Some? && ParsePart(part).value.sub == Every
    ensures NavigateStrip(cur, [part], phrase) == cur
  {
    var key := ParsePart(part).value.key;
    if cur.Obj? && Get(cur.fields, key).Some? && !Get(cur.fields, key).value.Null? {
      var next := Get(cur.fields, key).value;
      if next.Arr? {
        assert NavigateEach(next.elems, [], phrase) == next.elems;
      }
      assert NavigateValue(next, Every, [], phrase) == next;
      PutSame(cur.fields, key, next);
    }
  }

  // ---------------------------------------------------------------------------
  // The record being rewritten, and strip_phrases

  /** The plain-data form of one record, which the path operations rewrite in place. */
  class Record {
    var data: Json

    constructor (data: Json)
      ensures this.data == data
    {
      this.data := data;
    }

    /**
     * `traverse_and_replace_phrase(data, path, phrase, replace_with)`: the
     * path is cut at every `.`. An escaping `IndexError` is returned; what
     * the record then holds is not modelled.
     */
    method TraverseAndReplacePhrase(path: string, phrase: string, replaceWith: string) returns (r: Result<()>)
      modifies this
      ensures ReplaceAt(old(data), Split(path, '.'), phrase, replaceWith).Ok? ==>
                r.Ok? && data == ReplaceAt(old(data), Split(path, '.'), phrase, replaceWith).value
      ensures ReplaceAt(old(data), Split(path, '.'), phrase, replaceWith).Err? ==>
                r == Err(ReplaceAt(old(data), Split(path, '.'), phrase, replaceWith).error)
    {
      match ReplaceAt(data, Split(path, '.'), phrase, replaceWith) {
        case Ok(updated) =>
          data := updated;
          r := Ok(());
        case Err(e) =>
          r := Err(e);
      }
    }

    /** `delete_phrase_at_path(data, path, phrase)`: the path is cut at every `.` outside brackets. */
    method DeletePhraseAtPath(path: string, phrase: string)
      modifies this
      ensures data == NavigateStrip(old(data), PathParts(path), phrase)
    {
      data := NavigateStrip(data, PathParts(path), phrase);
    }
  }

  /** One record after the inner loop of `strip_phrases`: each (path, phrase) pair in turn, phrases replaced by "". */
  function StripAll(data: Json, pairs: seq<(string, string)>): Result<Json>
    decreases |pairs|
  {
    if pairs == [] then Ok(data)
    else
      match StripAll(data, pairs[..|pairs| - 1])
      case Err(e) => Err(e)
      case Ok(d) => ReplaceAt(d, Split(pairs[|pairs| - 1].0, '.'), pairs[|pairs| - 1].1, "")
  }

  /** The records `strip_phrases` returns, in order, or the first exception. */
  function StripEach(models: seq<Json>, pairs: seq<(string, string)>): Result<seq<Json>>
    decreases |models|
  {
    if models == [] then Ok([])
    else
      match StripEach(models[..|models| - 1], pairs)
      case Err(e) => Err(e)
      case Ok(done) =>
        match StripAll(models[|models| - 1], pairs)
        case Err(e) => Err(e)
        case Ok(d) => Ok(done + [d])
  }

  /**
   * `strip_phrases(model_list, phrase_map)`: every record in turn has every
   * (path, phrase) pair applied to it, in the order of the list, with
   * `replace_with` "".
   */
  method StripPhrases(models: seq<Json>, phraseMap: seq<(string, string)>) returns (r: Result<seq<Json>>)
    ensures r == StripEach(models, phraseMap)
  {
    var cleaned: seq<Json> := [];
    for m := 0 to |models|
      invariant StripEach(models[..m], phraseMap) == Ok(cleaned)
    {
      var record := new Record(models[m]);
      for k := 0 to |phraseMap|
        invariant StripAll(models[m], phraseMap[..k]) == Ok(record.data)
      {
        var (path, phrase) := phraseMap[k];
        StripAllStep(models[m], phraseMap, k, record.data);
        var step := record.TraverseAndReplacePhrase(path, phrase, "");
        if step.Err? {
          StripAllErrStays(models[m], phraseMap, k + 1);
          StripEachErr(models, phraseMap, m, cleaned);
          StripEachErrStays(models, phraseMap, m + 1);
          return Err(step.error);
        }
      }
      assert phraseMap[..|phraseMap|] == phraseMap;
      StripEachStep(models, phraseMap, m, cleaned, record.data);
      cleaned := cleaned + [record.data];
    }
    assert models[..|models|] == models;
    r := Ok(cleaned);
  }

  /** One more pair applied to a record. */
  lemma StripAllStep(data: Json, pairs: seq<(string, string)>, k: nat, d: Json)
    requires k < |pairs| && StripAll(data, pairs[..k]) == Ok(d)
    ensures StripAll(data, pairs[..k + 1]) == ReplaceAt(d, Split(pairs[k].0, '.'), pairs[k].1, "")
  {
    Seqs.PrefixStep(pairs, k);
  }

  /** One more record cleaned. */
  lemma StripEachStep(models: seq<Json>, pairs: seq<(string, string)>, m: nat, done: seq<Json>, d: Json)
    requires m < |models| && StripEach(models[..m], pairs) == Ok(done) && StripAll(models[m], pairs) == Ok(d)
    ensures StripEach(models[..m + 1], pairs) == Ok(done + [d])
  {
    Seqs.PrefixStep(models, m);
  }

  /** A record that raises makes the records so far raise. */
  lemma StripEachErr(models: seq<Json>, pairs: seq<(string, string)>, m: nat, done: seq<Json>)
    requires m < |models| && StripEach(models[..m], pairs) == Ok(done) && StripAll(models[m], pairs).Err?
    ensures StripEach(models[..m + 1], pairs) == Err(StripAll(models[m], pairs).error)
  {
    Seqs.PrefixStep(models, m);
  }

  /** Once a pair raises, the rest of the pairs are never applied. */
  lemma {:induction false} StripAllErrStays(data: Json, pairs: seq<(string, string)>, k: nat)
    requires k <= |pairs| && StripAll(data, pairs[..k]).Err?
    ensures StripAll(data, pairs) == StripAll(data, pairs[..k])
    decreases |pairs| - k
  {
    if k < |pairs| {
      assert pairs[..k + 1][..k] == pairs[..k];
      StripAllErrStays(data, pairs, k + 1);
    } else {
      assert pairs[..k] == pairs;
    }
  }

  /** Once a record raises, `strip_phrases` raises that exception. */
  lemma {:induction false} StripEachErrStays(models: seq<Json>, pairs: seq<(string, string)>, m: nat)
    requires m <= |models| && StripEach(models[..m], pairs).Err?
    ensures StripEach(models, pairs) == StripEach(models[..m], pairs)
    decreases |models| - m
  {
    if m < |models| {
      assert models[..m + 1][..m] == models[..m];
      StripEachErrStays(models, pairs, m + 1);
    } else {
      assert models[..m] == models;
    }
  }

  /** Applying `a` and then `b` is applying `a + b`: the pairs act in list order. */
  lemma {:induction false} StripAllAppend(data: Json, a: seq<(string, string)>, b: seq<(string, string)>)
    ensures StripAll(data, a + b) ==
      match StripAll(data, a)
      case Err(e) => Err(e)
      case Ok(d) => StripAll(d, b)
    decreases |b|
  {
    if b == [] {
      assert a + b == a;
    } else {
      assert (a + b)[..|a + b| - 1] == a + b[..|b| - 1];
      StripAllAppend(data, a, b[..|b| - 1]);
    }
  }

  /**
   * Stripping only ever removes text: every place of a record is still
   * there afterwards, a non-string scalar keeps its value, and a string
   * stays a string no longer than before.
   */
  lemma {:induction false} StripAllShrinks(data: Json, pairs: seq<(string, string)>, p: seq<Step>)
    requires StripAll(data, pairs).Ok?
    ensures ValueAt(StripAll(data, pairs).value, p).Some? <==> ValueAt(data, p).Some?
    ensures ValueAt(data, p).Some? && IsScalar(ValueAt(data, p).value) ==>
      Shrunk(ValueAt(data, p).value, ValueAt(StripAll(data, pairs).value, p).value)
    decreases |pairs|
  {
    if pairs != [] {
      var init := pairs[..|pairs| - 1];
      var (path, phrase) := pairs[|pairs| - 1];
      StripAllShrinks(data, init, p);
      var d := StripAll(data, init).value;
      var parts := Split(path, '.');
      ReplaceAtLeaves(d, parts, phrase, "", p);
      if ValueAt(d, p).Some? && IsScalar(ValueAt(d, p).value) {
        ReplaceIfMatchShrinks(ValueAt(d, p).value, phrase);
      }
    }
  }

  /** `after` is `before` or, for a string, a string no longer than it. */
  predicate Shrunk(before: Json, after: Json) {
    if before.Str? then after.Str? && |after.s| <= |before.s| else after == before
  }

  lemma ReplaceIfMatchShrinks(v: Json, phrase: string)
    ensures Shrunk(v, ReplaceIfMatch(v, phrase, ""))
  {
    if v.Str? {
      ReplaceAllShrinks(v.s, phrase);
    }
  }

  /** `s.replace(pat, "")` is never longer than `s`. */
  lemma {:induction false} ReplaceAllShrinks(s: string, pat: string)
    ensures |ReplaceAll(s, pat, "")| <= |s|
    decreases |s|
  {
    if pat == "" {
      if |s| > 0 {
        ReplaceAllShrinks(s[1..], pat);
      }
    } else if |s| >= |pat| {
      if pat <= s {
        ReplaceAllShrinks(s[|pat|..], pat);
      } else {
        ReplaceAllShrinks(s[1..], pat);
      }
    }
  }

  // ---------------------------------------------------------------------------
  // Negative indices and loose segments

  /** A negative index counts from the end of the list, as Python's `current[index]` does. */
  lemma NegativeIndexFromEnd(es: seq<Json>, key: string, n: int, phrase: string, replaceWith: string)
    requires PathUtils.ParseInt(key) == Some(n) && -(|es| as int) <= n < 0
    ensures ReplaceAt(Arr(es), [key], phrase, replaceWith) ==
      Ok(Arr(es[|es| + n := ReplaceIfMatch(es[|es| + n], phrase, replaceWith)]))
  {
    StarIsNotInt();
    assert key != "*";
    assert [key][0] == key && [key][1..] == [];
    assert ReplaceAt(Arr(es), [key], phrase, replaceWith) == ReplaceInList(Arr(es), key, [], phrase, replaceWith);
    assert Wrap(n, |es|) == |es| + n;
  }

  /**
   * A negative index beyond the start passes the `index < len(current)`
   * guard: as the last segment the `IndexError` is caught and nothing
   * changes; before further segments it escapes.
   */
  lemma BelowStartRaises(es: seq<Json>, key: string, n: int, rest: seq<string>, phrase: string, replaceWith: string)
    requires PathUtils.ParseInt(key) == Some(n) && n < -(|es| as int)
    ensures ReplaceAt(Arr(es), [key] + rest, phrase, replaceWith) ==
      if rest == [] then Ok(Arr(es)) else Err(IndexError)
  {
    StarIsNotInt();
    assert key != "*";
    assert ([key] + rest)[0] == key && ([key] + rest)[1..] == rest;
    assert ReplaceAt(Arr(es), [key] + rest, phrase, replaceWith) == ReplaceInList(Arr(es), key, rest, phrase, replaceWith);
  }

  lemma StarIsNotInt()
    ensures PathUtils.ParseInt("*") == None
  {
    var star := "*";
    assert star == ['*'];
    assert !PathUtils.DigitGroups(star);
    assert PathUtils.ParseSigned(star) == None;
    PathUtils.StripUnpadded(star);
  }

  /** `re.match` anchors only at the start: text after the key that is not a subscript is ignored. */
  lemma TrailingTextIgnored(key: string, tail: string)
    requires key != [] && forall i | 0 <= i < |key| :: IsWordChar(key[i])
    requires tail != [] && !IsWordChar(tail[0]) && tail[0] != '['
    ensures ParsePart(key + tail) == Some(Part(key, Whole))
  {
    WordPrefixOf(key, tail);
    assert (key + tail)[|key|..] == tail;
  }
}
