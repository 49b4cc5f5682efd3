/**
 * `get_path_value` (dotted, index and wildcard lookup in a record) and
 * `permis_values_to_dict_list`.
 */
module PathUtils {
  import opened Wrappers
  import opened Strings
  import opened Json
  import Seqs

  // ---------------------------------------------------------------------------
  // Python `int(part)` on the path segments

  /** Digits, with single underscores allowed between two digits (`1_000`). */
  predicate DigitGroups(s: string) {
    s != [] && IsAsciiDigit(s[0]) && IsAsciiDigit(s[|s| - 1])
    && forall i | 0 <= i < |s| :: GroupedAt(s, i)
  }

  /** The character at `i` is a digit, or an underscore between two digits. */
  predicate GroupedAt(s: string, i: nat)
    requires i < |s|
  {
    IsAsciiDigit(s[i]) || (s[i] == '_' && 0 < i < |s| - 1 && IsAsciiDigit(s[i - 1]) && IsAsciiDigit(s[i + 1]))
  }

  /** The decimal value of the digits of `s`, underscores skipped. */
  function DigitsValue(s: string): nat
    decreases |s|
  {
    if s == [] then 0
    else if IsAsciiDigit(s[|s| - 1]) then DigitsValue(s[..|s| - 1]) * 10 + (s[|s| - 1] as int - '0' as int)
    else DigitsValue(s[..|s| - 1])
  }

  /**
   * Python `int(part)` on a string: surrounding whitespace, then an optional
   * sign, then digit groups; anything else is a ValueError (`None`).
   */
  function ParseInt(part: string): Option<int> {
    ParseSigned(Strip(part))
  }

  /** An optional `+` or `-` followed by digit groups. */
  function ParseSigned(t: string): (r: Option<int>)
    ensures r.Some? <==> DigitGroups(t) || (|t| > 0 && t[0] in "+-" && DigitGroups(t[1..]))
  {
    var signed := |t| > 0 && (t[0] == '-' || t[0] == '+');
    var body := if signed then t[1..] else t;
    if DigitGroups(body) then
      var v: int := DigitsValue(body);
      Some(if signed && t[0] == '-' then -v else v)
    else None
  }

  lemma StripUnpadded(s: string)
    requires s != [] && !IsSpace(s[0]) && !IsSpace(s[|s| - 1])
    ensures Strip(s) == s
  {
  }

  lemma {:induction false} IntStrDigits(n: nat)
    ensures DigitGroups(IntStr(n)) && DigitsValue(IntStr(n)) == n
    ensures forall i | 0 <= i < |IntStr(n)| :: IsAsciiDigit(IntStr(n)[i])
    ensures !IsSpace(IntStr(n)[0])
    decreases n
  {
    var s := IntStr(n);
    if n >= 10 {
      IntStrDigits(n / 10);
      var p := IntStr(n / 10);
      assert s == p + [Digit(n % 10)];
      assert s[..|s| - 1] == p;
      forall i | 0 <= i < |s| ensures IsAsciiDigit(s[i]) {
        if i < |p| {
          assert s[i] == p[i];
        }
      }
    }
    forall i | 0 <= i < |s| ensures GroupedAt(s, i) {
    }
  }

  /** `int(str(n)) == n`: a decimal index written by Python is read back as itself. */
  lemma IntStrParses(n: int)
    ensures ParseInt(IntStr(n)) == Some(n)
  {
    if n < 0 {
      IntStrDigits(-n);
      NegativeParses(IntStr(-n), -n);
      assert IntStr(n) == "-" + IntStr(-n);
    } else {
      IntStrDigits(n);
      UnsignedParses(IntStr(n), n);
    }
  }

  lemma NegativeParses(d: string, m: nat)
    requires DigitGroups(d) && DigitsValue(d) == m
    ensures ParseInt("-" + d) == Some(-(m as int))
  {
    var s := "-" + d;
    assert s[1..] == d;
    assert s[|s| - 1] == d[|d| - 1];
    StripUnpadded(s);
    assert ParseSigned(s) == Some(-(m as int));
  }

  lemma UnsignedParses(d: string, m: nat)
    requires DigitGroups(d) && DigitsValue(d) == m
    ensures ParseInt(d) == Some(m)
  {
    StripUnpadded(d);
    assert d[0] != '-' && d[0] != '+';
    assert ParseSigned(d) == Some(DigitsValue(d));
  }

  // ---------------------------------------------------------------------------
  // get_path_value

  /** Python's `None` for a JSON `null`: both read as "no value". */
  function NoneIfNull(v: Option<Json>): (r: Option<Json>)
    ensures r.Some? ==> !r.value.Null?
  {
    if v.Some? && v.value.Null? then None else v
  }

  /** The nested `resolve(part, context)`: a list index (negative from the end), a dict key, else nothing. */
  function Resolve(part: string, cur: Json): (r: Option<Json>)
    ensures r.Some? ==> !r.value.Null?
  {
    match cur
    case Arr(es) =>
      (match ParseInt(part)
       case None => None
       case Some(n) =>
         if -|es| <= n < |es| then NoneIfNull(Some(es[if n < 0 then n + |es| else n])) else None)
    case Obj(fs) => NoneIfNull(Get(fs, part))
    case _ => None
  }

  /** `get_path_value(obj, path)`: the segments of the path applied in turn. */
  function PathValue(obj: Json, path: string): (r: Option<Json>)
    ensures r.Some? ==> !r.value.Null?
  {
    Walk(obj, Split(path, '.'))
  }

  /**
   * The loop of `get_path_value` from `cur` over the remaining segments. A
   * `*` ends the loop: on a list it gathers each element's result for the
   * remaining segments (the element itself when they join to ""), dropping
   * `None`s; on anything else it gives `[]`.
   */
  function Walk(cur: Json, parts: seq<string>): (r: Option<Json>)
    requires !cur.Null? || parts != []
    ensures r.Some? ==> !r.value.Null?
    decreases |parts|, 2, 0
  {
    if parts == [] then Some(cur)
    else if parts[0] == "*" then
      if cur.Arr? then Some(Arr(Gather(cur.elems, parts[1..]))) else Some(Arr([]))
    else
      match Resolve(parts[0], cur)
      case None => None
      case Some(next) => Walk(next, parts[1..])
  }

  /** The comprehension after a `*`: each element's result, `None`s dropped, in list order. */
  function Gather(items: seq<Json>, rest: seq<string>): (r: seq<Json>)
    ensures forall i | 0 <= i < |r| :: !r[i].Null?
    decreases |rest| + 1, 1, |items|
  {
    if items == [] then []
    else
      var v := Pick(items[|items| - 1], rest);
      Gather(items[..|items| - 1], rest) + (if v.Some? then [v.value] else [])
  }

  /** `get_path_value(item, remainder)` if the remainder is non-empty, else the item itself. */
  function Pick(item: Json, rest: seq<string>): (r: Option<Json>)
    ensures r.Some? ==> !r.value.Null?
    decreases |rest| + 1, 0, 0
  {
    if Join(rest, ".") == "" then NoneIfNull(Some(item)) else Walk(item, rest)
  }

  /** `get_path_value`, with its loop over the segments and its recursion after a `*`. */
  method GetPathValue(obj: Json, path: string) returns (r: Option<Json>)
    ensures r == PathValue(obj, path)
    decreases |path|, 1
  {
    var parts := Split(path, '.');
    JoinSplit(path, '.');
    SplitPartsFree(path, '.');
    var current := obj;
    var i := 0;
    while i < |parts|
      invariant 0 <= i <= |parts|
      invariant !current.Null? || i == 0
      invariant PathValue(obj, path) == Walk(current, parts[i..])
    {
      var part := parts[i];
      if part == "*" {
        WalkStar(current, parts, i);
        if !current.Arr? {
          return Some(Arr([]));
        }
        var rest := parts[i + 1..];
        assert forall k | 0 <= k < |rest| :: '.' !in rest[k] by {
          forall k | 0 <= k < |rest| ensures '.' !in rest[k] {
            assert rest[k] == parts[i + 1 + k];
          }
        }
        assert |Join(rest, ".")| < |path| by {
          if i + 1 < |parts| {
            JoinDropLength(parts, ".", i + 1);
          } else {
            JoinDropLength(parts, ".", i);
            assert parts[i..] == ["*"];
          }
        }
        var out := GatherRemainder(current.elems, rest, |path|);
        return Some(Arr(out));
      } else {
        WalkResolve(current, parts, i);
        var next := Resolve(part, current);
        if next.None? {
          return None;
        }
        current := next.value;
      }
      i := i + 1;
    }
    assert parts[i..] == [];
    return Some(current);
  }

  /**
   * The comprehension after a `*`: `get_path_value(item, remainder)` for each
   * item when the remainder is not empty, else the item itself, `None`s dropped.
   */
  method GatherRemainder(items: seq<Json>, rest: seq<string>, ghost bound: nat) returns (out: seq<Json>)
    requires forall k | 0 <= k < |rest| :: '.' !in rest[k]
    requires |Join(rest, ".")| < bound
    ensures out == Gather(items, rest)
    decreases bound, 0
  {
    var remainder := Join(rest, ".");
    out := [];
    var j := 0;
    while j < |items|
      invariant 0 <= j <= |items|
      invariant out == Gather(items[..j], rest)
    {
      var item := items[j];
      var v: Option<Json>;
      PickIsPathValue(item, rest);
      if remainder != "" {
        v := GetPathValue(item, remainder);
      } else {
        v := NoneIfNull(Some(item));
      }
      GatherStep(items, rest, j);
      if v.Some? {
        out := out + [v.value];
      }
      j := j + 1;
    }
    assert items[..j] == items;
  }

  /** A turn of the loop over the segments that meets a `*`. */
  lemma WalkStar(cur: Json, parts: seq<string>, i: nat)
    requires i < |parts| && parts[i] == "*"
    ensures Walk(cur, parts[i..]) == if cur.Arr? then Some(Arr(Gather(cur.elems, parts[i + 1..]))) else Some(Arr([]))
  {
    assert parts[i..][0] == parts[i] && parts[i..][1..] == parts[i + 1..];
  }

  /** A turn of the loop over the segments that resolves one segment. */
  lemma WalkResolve(cur: Json, parts: seq<string>, i: nat)
    requires i < |parts| && parts[i] != "*"
    ensures Walk(cur, parts[i..]) ==
      if Resolve(parts[i], cur).None? then None else Walk(Resolve(parts[i], cur).value, parts[i + 1..])
  {
    assert parts[i..][0] == parts[i] && parts[i..][1..] == parts[i + 1..];
  }

  /** One turn of the loop over the list after a `*`. */
  lemma GatherStep(items: seq<Json>, rest: seq<string>, j: nat)
    requires j < |items|
    ensures Gather(items[..j + 1], rest) ==
      Gather(items[..j], rest) + (if Pick(items[j], rest).Some? then [Pick(items[j], rest).value] else [])
  {
    Seqs.PrefixStep(items, j);
  }

  /** The recursive `get_path_value(item, remainder)` walks the segments after the `*`. */
  lemma PickIsPathValue(item: Json, rest: seq<string>)
    requires forall k | 0 <= k < |rest| :: '.' !in rest[k]
    ensures Pick(item, rest) == if Join(rest, ".") == "" then NoneIfNull(Some(item)) else PathValue(item, Join(rest, "."))
  {
    if Join(rest, ".") != "" {
      SplitJoin(rest, '.');
    }
  }

  // ---------------------------------------------------------------------------
  // Properties of get_path_value

  /** A path with no `*` segment can be followed in two steps: the first segments, then the rest. */
  lemma {:induction false} WalkConcat(cur: Json, a: seq<string>, b: seq<string>)
    requires a != [] && forall i | 0 <= i < |a| :: a[i] != "*"
    ensures Walk(cur, a + b) == match Walk(cur, a) case None => None case Some(v) => Walk(v, b)
    decreases |a|
  {
    assert (a + b)[1..] == a[1..] + b;
    match Resolve(a[0], cur)
    case None =>
    case Some(next) =>
      if |a| > 1 {
        WalkConcat(next, a[1..], b);
      }
  }

  /** `get_path_value(obj, "p.q")` is `get_path_value(get_path_value(obj, "p"), "q")` when `p` has no `*`. */
  lemma PathValueSteps(obj: Json, p: string, q: string)
    requires forall i | 0 <= i < |Split(p, '.')| :: Split(p, '.')[i] != "*"
    ensures PathValue(obj, p + "." + q) == match PathValue(obj, p) case None => None case Some(v) => PathValue(v, q)
  {
    SplitAppend(p, q, '.');
    WalkConcat(obj, Split(p, '.'), Split(q, '.'));
  }

  /** The elements of a list that are not `null`, in order. */
  function NonNull(es: seq<Json>): (r: seq<Json>)
    ensures |r| <= |es|
  {
    if es == [] then []
    else NonNull(es[..|es| - 1]) + (if es[|es| - 1].Null? then [] else [es[|es| - 1]])
  }

  /**
   * A `*` with nothing after it (or only an empty segment, as in `a.*.`)
   * yields the list's non-null elements.
   */
  lemma {:induction false} TrailingStar(es: seq<Json>, rest: seq<string>)
    requires Join(rest, ".") == ""
    ensures Gather(es, rest) == NonNull(es)
  {
    if es != [] {
      TrailingStar(es[..|es| - 1], rest);
    }
  }

  /** `*` on a value that is not a list yields an empty list, whatever follows. */
  lemma StarOnNonList(cur: Json, rest: seq<string>)
    requires !cur.Arr?
    ensures Walk(cur, ["*"] + rest) == Some(Arr([]))
  {
  }

  /** A segment other than `*` on a scalar yields `None`. */
  lemma ScalarStops(cur: Json, parts: seq<string>)
    requires IsScalar(cur) && parts != [] && parts[0] != "*"
    ensures Walk(cur, parts) == None
  {
  }

  lemma {:induction false} IntStrNoDot(n: int)
    ensures '.' !in IntStr(n)
    decreases if n < 0 then -n + 1 else n
  {
    if n < 0 {
      IntStrNoDot(-n);
    } else if n >= 10 {
      IntStrNoDot(n / 10);
    }
  }

  /** A path that is one segment, other than `*`, resolves that segment. */
  lemma OneSegment(obj: Json, s: string)
    requires '.' !in s && s != "*"
    ensures PathValue(obj, s) == Resolve(s, obj)
  {
    SplitNoSep(s, '.');
    assert Split(s, '.') == [s];
    match Resolve(s, obj)
    case None =>
    case Some(next) =>
      assert Walk(obj, [s]) == Walk(next, []);
  }

  lemma IntStrNotStar(n: int)
    ensures IntStr(n) != "*"
  {
    if n < 0 {
      assert IntStr(n) == "-" + IntStr(-n);
    } else {
      IntStrDigits(n);
    }
  }

  /**
   * A decimal index selects a list element, counting from the end when
   * negative (`-1` is the last); an index outside `-len..len-1` yields `None`.
   */
  lemma IndexLookup(es: seq<Json>, n: int)
    ensures PathValue(Arr(es), IntStr(n)) ==
              if -|es| <= n < |es| then NoneIfNull(Some(es[if n < 0 then n + |es| else n])) else None
  {
    IntStrNoDot(n);
    IntStrNotStar(n);
    OneSegment(Arr(es), IntStr(n));
    IntStrParses(n);
  }

  /** Element `i` of a list is reached by index `i` and by index `i - len`. */
  lemma IndexBothWays(es: seq<Json>, i: int)
    requires 0 <= i < |es| && !es[i].Null?
    ensures PathValue(Arr(es), IntStr(i)) == Some(es[i])
    ensures PathValue(Arr(es), IntStr(i - |es|)) == Some(es[i])
  {
    var n := i - |es|;
    IndexLookup(es, i);
    IndexLookup(es, n);
    assert -|es| <= n < 0 && n + |es| == i;
    assert NoneIfNull(Some(es[i])) == Some(es[i]);
  }

  // ---------------------------------------------------------------------------
  // permis_values_to_dict_list

  /** The values of the entries of `d` whose key is `k`, in order. */
  function EntryValues(d: seq<Field>, k: string): seq<Json>
  {
    if d == [] then []
    else EntryValues(d[..|d| - 1], k) + (if d[|d| - 1].key == k then [d[|d| - 1].value] else [])
  }

  /** The values stored under `k` across the dicts, in input order. */
  function ValuesUnder(dicts: seq<seq<Field>>, k: string): seq<Json>
  {
    if dicts == [] then []
    else ValuesUnder(dicts[..|dicts| - 1], k) + EntryValues(dicts[|dicts| - 1], k)
  }

  /** The list a defaultdict(list) gives for `k`: `[]` until something is appended. */
  function ListOf(lists: map<string, seq<Json>>, k: string): seq<Json> {
    if k in lists then lists[k] else []
  }

  /** `keys` followed by the keys of `d` not already among them, in order of first appearance. */
  function NewKeys(keys: seq<string>, d: seq<Field>): seq<string>
    decreases |d|
  {
    if d == [] then keys
    else
      var ks := NewKeys(keys, d[..|d| - 1]);
      if d[|d| - 1].key in ks then ks else ks + [d[|d| - 1].key]
  }

  /** The keys of the dicts in order of first appearance. */
  function KeyOrder(dicts: seq<seq<Field>>): seq<string>
    decreases |dicts|
  {
    if dicts == [] then [] else NewKeys(KeyOrder(dicts[..|dicts| - 1]), dicts[|dicts| - 1])
  }

  /** The keys added are exactly those of `d`. */
  lemma {:induction false} NewKeysCover(keys: seq<string>, d: seq<Field>, k: string)
    ensures k in NewKeys(keys, d) <==> k in keys || k in Keys(d)
    decreases |d|
  {
    if d != [] {
      NewKeysCover(keys, d[..|d| - 1], k);
      KeysLast(d);
    }
  }

  /** No key is added twice. */
  lemma {:induction false} NewKeysDistinct(keys: seq<string>, d: seq<Field>)
    requires forall a, b | 0 <= a < b < |keys| :: keys[a] != keys[b]
    ensures forall a, b | 0 <= a < b < |NewKeys(keys, d)| :: NewKeys(keys, d)[a] != NewKeys(keys, d)[b]
    decreases |d|
  {
    if d != [] {
      NewKeysDistinct(keys, d[..|d| - 1]);
    }
  }

  lemma {:induction false} KeyOrderDistinct(dicts: seq<seq<Field>>)
    ensures forall a, b | 0 <= a < b < |KeyOrder(dicts)| :: KeyOrder(dicts)[a] != KeyOrder(dicts)[b]
    decreases |dicts|
  {
    if dicts != [] {
      KeyOrderDistinct(dicts[..|dicts| - 1]);
      NewKeysDistinct(KeyOrder(dicts[..|dicts| - 1]), dicts[|dicts| - 1]);
    }
  }

  /** A key is listed exactly when one of the dicts has it. */
  lemma {:induction false} KeyOrderCovers(dicts: seq<seq<Field>>, k: string)
    ensures k in KeyOrder(dicts) <==> exists i | 0 <= i < |dicts| :: k in Keys(dicts[i])
    decreases |dicts|
  {
    if dicts != [] {
      var init := dicts[..|dicts| - 1];
      KeyOrderCovers(init, k);
      NewKeysCover(KeyOrder(init), dicts[|dicts| - 1], k);
      SomeDictHasLast(dicts, k);
    }
  }

  /** One of the dicts has the key `k`. */
  predicate SomeDictHas(dicts: seq<seq<Field>>, k: string) {
    exists i | 0 <= i < |dicts| :: k in Keys(dicts[i])
  }

  /** One of the dicts has `k` when one before the last has it or the last one does. */
  lemma SomeDictHasLast(dicts: seq<seq<Field>>, k: string)
    requires dicts != []
    ensures SomeDictHas(dicts, k) <==> SomeDictHas(dicts[..|dicts| - 1], k) || k in Keys(dicts[|dicts| - 1])
  {
    var init := dicts[..|dicts| - 1];
    if SomeDictHas(dicts, k) {
      var i :| 0 <= i < |dicts| && k in Keys(dicts[i]);
      if i < |init| {
        assert init[i] == dicts[i];
      }
    }
    if SomeDictHas(init, k) {
      var i :| 0 <= i < |init| && k in Keys(init[i]);
      assert init[i] == dicts[i];
    }
  }

  /**
   * `permis_values_to_dict_list`: every key seen in any of the dicts, in
   * order of first appearance, with the list of its values in input order.
   */
  method PermisValuesToDictList(dicts: seq<seq<Field>>) returns (keys: seq<string>, lists: map<string, seq<Json>>)
    ensures keys == KeyOrder(dicts)
    ensures forall k :: ListOf(lists, k) == ValuesUnder(dicts, k)
    ensures forall k | k in lists :: lists[k] != []
    ensures forall k :: k in keys <==> k in lists
    ensures forall i, j | 0 <= i < j < |keys| :: keys[i] != keys[j]
  {
    keys, lists := [], map[];
    var i := 0;
    while i < |dicts|
      invariant 0 <= i <= |dicts|
      invariant keys == KeyOrder(dicts[..i])
      invariant forall k :: ListOf(lists, k) == ValuesUnder(dicts[..i], k)
      invariant forall k | k in lists :: lists[k] != []
      invariant forall k :: k in keys <==> k in lists
      invariant forall a, b | 0 <= a < b < |keys| :: keys[a] != keys[b]
    {
      keys, lists := AppendEntries(keys, lists, dicts[i]);
      assert dicts[..i + 1][..i] == dicts[..i];
      i := i + 1;
    }
    assert dicts[..i] == dicts;
  }

  /** The inner loop: each entry of one dict appended to the list of its key. */
  method AppendEntries(keys0: seq<string>, lists0: map<string, seq<Json>>, d: seq<Field>)
    returns (keys: seq<string>, lists: map<string, seq<Json>>)
    requires forall k | k in lists0 :: lists0[k] != []
    requires forall k :: k in keys0 <==> k in lists0
    requires forall a, b | 0 <= a < b < |keys0| :: keys0[a] != keys0[b]
    ensures keys == NewKeys(keys0, d)
    ensures forall k :: ListOf(lists, k) == ListOf(lists0, k) + EntryValues(d, k)
    ensures forall k | k in lists :: lists[k] != []
    ensures forall k :: k in keys <==> k in lists
    ensures forall a, b | 0 <= a < b < |keys| :: keys[a] != keys[b]
  {
    keys, lists := keys0, lists0;
    var j := 0;
    while j < |d|
      invariant 0 <= j <= |d|
      invariant keys == NewKeys(keys0, d[..j])
      invariant forall k :: ListOf(lists, k) == ListOf(lists0, k) + EntryValues(d[..j], k)
      invariant forall k | k in lists :: lists[k] != []
      invariant forall k :: k in keys <==> k in lists
      invariant forall a, b | 0 <= a < b < |keys| :: keys[a] != keys[b]
    {
      var key := d[j].key;
      var keys' := if key in lists then keys else keys + [key];
      assert d[..j + 1][..j] == d[..j];
      var lists' := lists[key := ListOf(lists, key) + [d[j].value]];
      TrackStep(keys, lists, key, d[j].value, keys', lists');
      AppendStep(lists, lists0, d, j);
      keys, lists := keys', lists';
      j := j + 1;
    }
    assert d[..j] == d;
  }

  /** The bookkeeping of one append: `keys` lists the keys of `lists` once each, and no list is empty. */
  lemma TrackStep(keys: seq<string>, lists: map<string, seq<Json>>, key: string, v: Json,
                  keys': seq<string>, lists': map<string, seq<Json>>)
    requires forall k | k in lists :: lists[k] != []
    requires forall k :: k in keys <==> k in lists
    requires forall a, b | 0 <= a < b < |keys| :: keys[a] != keys[b]
    requires keys' == (if key in lists then keys else keys + [key])
    requires lists' == lists[key := ListOf(lists, key) + [v]]
    ensures forall k | k in lists' :: lists'[k] != []
    ensures forall k :: k in keys' <==> k in lists'
    ensures forall a, b | 0 <= a < b < |keys'| :: keys'[a] != keys'[b]
  {
  }

  lemma AppendStep(lists: map<string, seq<Json>>, lists0: map<string, seq<Json>>, d: seq<Field>, j: int)
    requires 0 <= j < |d|
    requires forall k :: ListOf(lists, k) == ListOf(lists0, k) + EntryValues(d[..j], k)
    ensures forall k :: ListOf(lists[d[j].key := ListOf(lists, d[j].key) + [d[j].value]], k)
                        == ListOf(lists0, k) + EntryValues(d[..j + 1], k)
  {
    forall k
      ensures ListOf(lists[d[j].key := ListOf(lists, d[j].key) + [d[j].value]], k)
              == ListOf(lists0, k) + EntryValues(d[..j + 1], k)
    {
      AppendStepAt(lists, ListOf(lists0, k), d, j, k);
    }
  }

  /** One key of `AppendStep`. */
  lemma AppendStepAt(lists: map<string, seq<Json>>, before: seq<Json>, d: seq<Field>, j: int, k: string)
    requires 0 <= j < |d|
    requires ListOf(lists, k) == before + EntryValues(d[..j], k)
    ensures ListOf(lists[d[j].key := ListOf(lists, d[j].key) + [d[j].value]], k) == before + EntryValues(d[..j + 1], k)
  {
    var pre := d[..j + 1];
    assert pre[..|pre| - 1] == d[..j];
    assert pre[|pre| - 1] == d[j];
  }

  /** In a dict (distinct keys), `k` has one value if it is a key and none otherwise. */
  lemma {:induction false} EntryValuesOfDict(d: seq<Field>, k: string)
    requires UniqueKeys(d)
    ensures |EntryValues(d, k)| == if k in Keys(d) then 1 else 0
  {
    if d != [] {
      UniqueInit(d);
      EntryValuesOfDict(d[..|d| - 1], k);
      KeysLast(d);
    }
  }

  /** The number of dicts among `dicts` that have the key `k`. */
  function DictsWith(dicts: seq<seq<Field>>, k: string): nat {
    if dicts == [] then 0
    else DictsWith(dicts[..|dicts| - 1], k) + (if k in Keys(dicts[|dicts| - 1]) then 1 else 0)
  }

  /** With well-formed dicts, each key gets exactly one value per dict that has it. */
  lemma {:induction false} OneValuePerDict(dicts: seq<seq<Field>>, k: string)
    requires forall i | 0 <= i < |dicts| :: UniqueKeys(dicts[i])
    ensures |ValuesUnder(dicts, k)| == DictsWith(dicts, k)
  {
    if dicts != [] {
      OneValuePerDict(dicts[..|dicts| - 1], k);
      EntryValuesOfDict(dicts[|dicts| - 1], k);
    }
  }
}
