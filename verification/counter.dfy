/**
 * The field counter: `match_condition`, `find_group_value` and
 * `count_matching_fields` without a logic expression. Every item is walked
 * with `recursive_descent` (Recursor.Leaves); the leaves whose path names
 * one of the fields are tallied per key into `flat`, and an item with some
 * non-zero tally adds its tallies to `results[key][group]` (or
 * `results[key][type][group]`) through `safe_nested_increment`
 * (Helpers.Increment), which here returns the updated dict.
 */
module Counter {
  import opened Wrappers
  import opened Strings
  import opened Json
  import Seqs
  import opened Recursor
  import Helpers

  // ---------------------------------------------------------------------------
  // match_condition

  /** The `match_type` option: "non_null", "null", "fixed", "regex" or any other name. */
  datatype MatchType = NonNull | IsNull | Fixed | Regex | OtherMatch(name: string)

  /** The `group_type` option: "top", "path", "terminal" or any other name. */
  datatype GroupType = Top | PathContains | Terminal | OtherGroup(name: string)

  /** `value is None or value == "" or value == []`. */
  predicate IsBlank(v: Json) {
    v == Null || v == Str("") || v == Arr([])
  }

  /**
   * `match_condition(value, match_type, pattern)`. The regex branch's
   * `re.search(pattern, str(value))` is the parameter `search`.
   */
  function MatchCondition(value: Json, matchType: MatchType, pattern: Option<string>, search: Json -> bool): bool {
    if IsBlank(value) then matchType == IsNull
    else if matchType == Fixed then pattern.Some? && value == Str(pattern.value)
    else if matchType == Regex then search(value)
    else false
  }

  // ---------------------------------------------------------------------------
  // find_group_value

  /** The visitor of `find_group_value` assigns `found` at this leaf. */
  predicate GroupHit(leaf: Leaf, groupBy: string, groupType: GroupType) {
    (groupType == PathContains && IsSubstring(groupBy, leaf.path))
    || (groupType == Terminal && LastPart(leaf.path, '.') == groupBy)
  }

  /** The last leaf, in visiting order, at which the visitor assigns `found`. */
  function LastHit(leaves: seq<Leaf>, groupBy: string, groupType: GroupType): (r: Option<nat>)
    ensures r.None? <==> forall i | 0 <= i < |leaves| :: !GroupHit(leaves[i], groupBy, groupType)
    ensures r.Some? ==> r.value < |leaves| && GroupHit(leaves[r.value], groupBy, groupType)
    ensures r.Some? ==> forall i | r.value < i < |leaves| :: !GroupHit(leaves[i], groupBy, groupType)
    decreases |leaves|
  {
    if leaves == [] then None
    else if GroupHit(leaves[|leaves| - 1], groupBy, groupType) then Some(|leaves| - 1)
    else LastHit(leaves[..|leaves| - 1], groupBy, groupType)
  }

  /**
   * `find_group_value(data, group_by, group_type)`: for "top", `str` of the
   * top-level value or "<unknown>"; otherwise `str` of the last leaf the
   * visitor matches, or "<unknown>" when none does (always so for an
   * unknown group type).
   */
  function GroupValue(data: seq<Field>, groupBy: string, groupType: GroupType): string {
    if groupType == Top then
      match Get(data, groupBy)
      case None => "<unknown>"
      case Some(v) => PyStr(v)
    else
      Found(Leaves(Obj(data), ""), groupBy, groupType)
  }

  /** `found` once the visitor has seen `leaves`: `str` of the last hit's value, else "<unknown>". */
  function Found(leaves: seq<Leaf>, groupBy: string, groupType: GroupType): string
    requires forall i | 0 <= i < |leaves| :: IsScalar(leaves[i].value)
  {
    match LastHit(leaves, groupBy, groupType)
    case None => "<unknown>"
    case Some(h) => ScalarStr(leaves[h].value)
  }

  /** One visit: a hit replaces `found`, anything else leaves it. */
  lemma FoundStep(leaves: seq<Leaf>, groupBy: string, groupType: GroupType, i: nat)
    requires i < |leaves| && forall k | 0 <= k < |leaves| :: IsScalar(leaves[k].value)
    ensures Found(leaves[..i + 1], groupBy, groupType)
      == if GroupHit(leaves[i], groupBy, groupType) then ScalarStr(leaves[i].value) else Found(leaves[..i], groupBy, groupType)
  {
    Seqs.PrefixStep(leaves, i);
    var pre := leaves[..i + 1];
    assert pre[|pre| - 1] == leaves[i] && pre[..|pre| - 1] == leaves[..i];
    var h := LastHit(leaves[..i], groupBy, groupType);
    if h.Some? {
      assert leaves[..i][h.value] == leaves[h.value] == pre[h.value];
    }
  }

  /** The walk of `find_group_value`, with `found` updated by the visitor at each leaf. */
  method FindGroupValue(data: seq<Field>, groupBy: string, groupType: GroupType) returns (found: string)
    ensures found == GroupValue(data, groupBy, groupType)
  {
    if groupType == Top {
      found := match Get(data, groupBy) case None => "<unknown>" case Some(v) => PyStr(v);
      return;
    }
    found := "<unknown>";
    var leaves := Leaves(Obj(data), "");
    for i := 0 to |leaves|
      invariant found == Found(leaves[..i], groupBy, groupType)
    {
      FoundStep(leaves, groupBy, groupType, i);
      if GroupHit(leaves[i], groupBy, groupType) {
        found := ScalarStr(leaves[i].value);
      }
    }
    assert leaves[..|leaves|] == leaves;
  }

  /** "terminal" and "path" give the value of the last matching leaf: no later leaf matches. */
  lemma GroupValueIsLastHit(data: seq<Field>, groupBy: string, groupType: GroupType)
    requires groupType != Top
    ensures var leaves := Leaves(Obj(data), "");
      (GroupValue(data, groupBy, groupType) == "<unknown>" && forall i | 0 <= i < |leaves| :: !GroupHit(leaves[i], groupBy, groupType))
      || exists i | 0 <= i < |leaves| ::
           GroupHit(leaves[i], groupBy, groupType) && GroupValue(data, groupBy, groupType) == ScalarStr(leaves[i].value)
           && forall j | i < j < |leaves| :: !GroupHit(leaves[j], groupBy, groupType)
  {
    var leaves := Leaves(Obj(data), "");
    var h := LastHit(leaves, groupBy, groupType);
    if h.Some? {
      var i := h.value;
      assert GroupHit(leaves[i], groupBy, groupType) && GroupValue(data, groupBy, groupType) == ScalarStr(leaves[i].value);
      assert forall j | i < j < |leaves| :: !GroupHit(leaves[j], groupBy, groupType);
    }
  }

  /** A group type other than "top", "path" and "terminal" matches nothing. */
  lemma UnknownGroupType(data: seq<Field>, groupBy: string, groupType: GroupType)
    requires groupType.OtherGroup?
    ensures GroupValue(data, groupBy, groupType) == "<unknown>"
  {
  }

  // ---------------------------------------------------------------------------
  // Field names

  /**
   * `re.fullmatch(fn.replace("*", ".*"), path)` for a field name whose only
   * regular-expression syntax is `.` and `*`: `*` matches any run of
   * characters and `.` any one character, neither matching a newline, and
   * every other character matches itself. Other metacharacters (`+`, `?`,
   * `^`, `$`, `(`, `[`, `|`, `\`, `{`) keep their regular-expression meaning
   * in Python; this predicate reads them literally.
   */
  predicate Glob(pat: string, s: string)
    decreases |pat| + |s|
  {
    if pat == [] then s == []
    else if pat[0] == '*' then Glob(pat[1..], s) || (s != [] && s[0] != '\n' && Glob(pat, s[1..]))
    else s != [] && (if pat[0] == '.' then s[0] != '\n' else s[0] == pat[0]) && Glob(pat[1..], s[1..])
  }

  /** `*` alone matches every path without a newline. */
  lemma {:induction false} GlobStar(s: string)
    ensures Glob("*", s) <==> forall i | 0 <= i < |s| :: s[i] != '\n'
    decreases |s|
  {
    assert "*"[1..] == [];
    if s != [] {
      GlobStar(s[1..]);
      assert forall i | 1 <= i < |s| :: s[i] == s[1..][i - 1];
    }
  }

  /** Every name without a newline matches itself, wildcards included. */
  lemma {:induction false} GlobSelf(s: string)
    requires forall i | 0 <= i < |s| :: s[i] != '\n'
    ensures Glob(s, s)
    decreases |s|
  {
    if s != [] {
      GlobSelf(s[1..]);
      if s[0] == '*' {
        assert Glob(s, s[1..]);
      }
    }
  }

  // ---------------------------------------------------------------------------
  // The per-item tally `flat`

  /**
   * The options of one `count_matching_fields` call besides grouping.
   * `search` stands for `re.search(value_match, str(value))` and
   * `classify` for `classify_type(value, char_limit)`.
   */
  datatype Query = Query(
    fieldNames: seq<string>,
    matchType: MatchType,
    valueMatch: Option<string>,
    search: Json -> bool,
    countType: bool,
    classify: Json -> string)

  /** Some field name is the whole path, its last segment, or a wildcard pattern matching it. */
  predicate Selected(fieldNames: seq<string>, path: string) {
    exists fn | fn in fieldNames :: fn == path || fn == LastPart(path, '.') || ('*' in fn && Glob(fn, path))
  }

  /** The key a selected leaf is tallied under: the full path if it is listed, else its last segment. */
  function CountKey(fieldNames: seq<string>, path: string): string {
    if path in fieldNames then path else LastPart(path, '.')
  }

  /** `value in (None, "", [], "null")`. */
  predicate IsNullLike(v: Json) {
    IsBlank(v) || v == Str("null")
  }

  /** The visitor adds one to the tally for this leaf. */
  predicate Counted(q: Query, leaf: Leaf) {
    Selected(q.fieldNames, leaf.path) &&
    ((q.matchType == NonNull && !IsNullLike(leaf.value))
     || (q.matchType == IsNull && IsNullLike(leaf.value))
     || ((q.matchType == Fixed || q.matchType == Regex) && MatchCondition(leaf.value, q.matchType, q.valueMatch, q.search)))
  }

  /**
   * "fixed" counts exactly the selected leaves holding the pattern as a
   * string, when the pattern is not empty; without a pattern it counts
   * nothing, since no value that is not blank equals None.
   */
  lemma FixedCounts(q: Query, leaf: Leaf)
    requires q.matchType == Fixed
    requires q.valueMatch.None? || q.valueMatch.value != ""
    ensures Counted(q, leaf) <==> q.valueMatch.Some? && Selected(q.fieldNames, leaf.path) && leaf.value == Str(q.valueMatch.value)
  {
  }

  /** A "fixed" pattern "" never counts a leaf: "" is blank, and a blank value only satisfies the "null" type. */
  lemma FixedEmptyCountsNothing(q: Query, leaf: Leaf)
    requires q.matchType == Fixed && q.valueMatch == Some("")
    ensures !Counted(q, leaf)
  {
  }

  /** A "fixed" pattern "null" counts the string "null", which the "null" type counts as well. */
  lemma FixedNullOverlapsNull(q: Query, leaf: Leaf)
    requires Selected(q.fieldNames, leaf.path) && leaf.value == Str("null")
    ensures Counted(q.(matchType := Fixed, valueMatch := Some("null")), leaf)
    ensures Counted(q.(matchType := IsNull), leaf)
    ensures !Counted(q.(matchType := NonNull), leaf)
  {
  }

  /** "regex" counts exactly the selected leaves that are not blank and in which the search finds the pattern. */
  lemma RegexCounts(q: Query, leaf: Leaf)
    requires q.matchType == Regex
    ensures Counted(q, leaf) <==> Selected(q.fieldNames, leaf.path) && !IsBlank(leaf.value) && q.search(leaf.value)
  {
  }

  /** Every selected leaf is counted by exactly one of the "null" and "non_null" types, and no leaf by an unknown type. */
  lemma NullSplitsLeaves(q: Query, leaf: Leaf, name: string)
    requires Selected(q.fieldNames, leaf.path)
    ensures Counted(q.(matchType := IsNull), leaf) != Counted(q.(matchType := NonNull), leaf)
    ensures !Counted(q.(matchType := OtherMatch(name)), leaf)
  {
  }

  /**
   * What the visitor decides at one leaf: the key it would tally under,
   * whether the path is selected, whether the leaf is counted, and the
   * leaf's class for `count_type`.
   */
  datatype Mark = Mark(key: string, selected: bool, counted: bool, kind: string)

  function MarkOf(q: Query, leaf: Leaf): (m: Mark)
    ensures m.counted ==> m.selected
  {
    Mark(CountKey(q.fieldNames, leaf.path), Selected(q.fieldNames, leaf.path), Counted(q, leaf), q.classify(leaf.value))
  }

  /** The marks of `leaves`, in visiting order. */
  function Marks(q: Query, leaves: seq<Leaf>): seq<Mark>
    decreases |leaves|
  {
    if leaves == [] then [] else Marks(q, leaves[..|leaves| - 1]) + [MarkOf(q, leaves[|leaves| - 1])]
  }

  lemma {:induction false} MarksAt(q: Query, leaves: seq<Leaf>)
    ensures |Marks(q, leaves)| == |leaves|
    ensures forall i | 0 <= i < |leaves| :: Marks(q, leaves)[i] == MarkOf(q, leaves[i])
    decreases |leaves|
  {
    if leaves != [] {
      var init := leaves[..|leaves| - 1];
      MarksAt(q, init);
      assert forall i | 0 <= i < |init| :: init[i] == leaves[i];
    }
  }

  /** Every mark that is counted is selected. */
  predicate WellMarked(ms: seq<Mark>) {
    forall i | 0 <= i < |ms| :: ms[i].counted ==> ms[i].selected
  }

  lemma MarksWellMarked(q: Query, leaves: seq<Leaf>)
    ensures WellMarked(Marks(q, leaves))
  {
    MarksAt(q, leaves);
  }

  /** `flat.get(key, 0)`. */
  function Tallied(flat: seq<Field>, key: string): int {
    match Get(flat, key)
    case Some(Num(n)) => n
    case _ => 0
  }

  /** Every tally is a positive number. */
  predicate PositiveTallies(flat: seq<Field>) {
    forall i | 0 <= i < |flat| :: flat[i].value.Num? && flat[i].value.n >= 1
  }

  /** `flat` after the visitor has made the decisions `ms`. */
  function Tally(ms: seq<Mark>): seq<Field>
    decreases |ms|
  {
    if ms == [] then [] else Visit(Tally(ms[..|ms| - 1]), ms[|ms| - 1])
  }

  /** One visitor call: a counted leaf adds one to the tally of its key. */
  function Visit(flat: seq<Field>, m: Mark): seq<Field> {
    if m.counted then Put(flat, m.key, Bump(flat, m.key)) else flat
  }

  /** `flat.get(key, 0) + 1`. */
  function Bump(flat: seq<Field>, key: string): Json {
    Num(Tallied(flat, key) + 1)
  }

  /** A visitor call keeps the tallies of other keys. */
  lemma VisitKeeps(prev: seq<Field>, m: Mark, key: string)
    requires m.key != key
    ensures Get(Visit(prev, m), key) == Get(prev, key)
  {
    if m.counted {
      PutOther(prev, m.key, Bump(prev, m.key), key);
    }
  }

  /** The tally is a dict of positive counts. */
  lemma {:induction false} TallyShape(ms: seq<Mark>)
    ensures UniqueKeys(Tally(ms)) && PositiveTallies(Tally(ms))
    decreases |ms|
  {
    if ms != [] {
      var m := ms[|ms| - 1];
      TallyShape(ms[..|ms| - 1]);
      if m.counted {
        PutTally(Tally(ms[..|ms| - 1]), m.key);
      }
    }
  }

  lemma PutTally(flat: seq<Field>, key: string)
    requires UniqueKeys(flat) && PositiveTallies(flat)
    ensures UniqueKeys(Put(flat, key, Bump(flat, key)))
    ensures PositiveTallies(Put(flat, key, Bump(flat, key)))
  {
    var v := Bump(flat, key);
    PutUnique(flat, key, v);
    PutEntries(flat, key, v);
    GetIsEntry(flat, key);
  }

  /** `flat_types` after the decisions `ms`: with `count_type`, the class of the last selected leaf per key. */
  function Types(ms: seq<Mark>, countType: bool): seq<Field>
    decreases |ms|
  {
    if ms == [] then []
    else
      Note(Types(ms[..|ms| - 1], countType), ms[|ms| - 1], countType)
  }

  /** One visitor call on `flat_types`: with `count_type`, a selected leaf records its class under its key. */
  function Note(types: seq<Field>, m: Mark, countType: bool): seq<Field> {
    if countType && m.selected then Put(types, m.key, Str(m.kind)) else types
  }

  /** How many leaves are counted under `key`: the reference the tally is checked against. */
  function Occurrences(ms: seq<Mark>, key: string): nat
    decreases |ms|
  {
    if ms == [] then 0
    else Occurrences(ms[..|ms| - 1], key) + (if ms[|ms| - 1].counted && ms[|ms| - 1].key == key then 1 else 0)
  }

  /** Each key's tally is the number of counted leaves under it, and a key with none is absent. */
  lemma {:induction false} TallyCounts(ms: seq<Mark>, key: string)
    ensures Get(Tally(ms), key) == if Occurrences(ms, key) == 0 then None else Some(Num(Occurrences(ms, key)))
    decreases |ms|
  {
    if ms != [] {
      var init := ms[..|ms| - 1];
      var m := ms[|ms| - 1];
      TallyCounts(init, key);
      if m.key != key {
        VisitKeeps(Tally(init), m, key);
      }
    }
  }

  /** The tally is empty exactly when no leaf is counted. */
  lemma {:induction false} TallyEmpty(ms: seq<Mark>)
    ensures Tally(ms) == [] <==> forall i | 0 <= i < |ms| :: !ms[i].counted
    decreases |ms|
  {
    if ms != [] {
      var init := ms[..|ms| - 1];
      TallyEmpty(init);
      assert forall i | 0 <= i < |init| :: init[i] == ms[i];
    }
  }

  /** With `count_type`, every tallied key has a class, so the "unknown" default is never used. */
  lemma {:induction false} TypesCoverTally(ms: seq<Mark>, key: string)
    requires WellMarked(ms) && key in Keys(Tally(ms))
    ensures Get(Types(ms, true), key).Some? && Get(Types(ms, true), key).value.Str?
    decreases |ms|
  {
    var init := ms[..|ms| - 1];
    var m := ms[|ms| - 1];
    assert WellMarked(init) by {
      assert forall i | 0 <= i < |init| :: init[i] == ms[i];
    }
    if !(m.selected && m.key == key) {
      if m.key != key {
        VisitKeeps(Tally(init), m, key);
      }
      TypesCoverTally(init, key);
      if m.selected {
        PutOther(Types(init, true), m.key, Str(m.kind), key);
      }
    }
  }

  /** `any(flat.values())`. */
  predicate AnyTruthy(flat: seq<Field>) {
    exists i | 0 <= i < |flat| :: Truthy(flat[i].value)
  }

  /** An item contributes exactly when one of its leaves is counted. */
  lemma Contributes(ms: seq<Mark>)
    ensures AnyTruthy(Tally(ms)) <==> exists i | 0 <= i < |ms| :: ms[i].counted
  {
    var flat := Tally(ms);
    TallyShape(ms);
    TallyEmpty(ms);
    if flat != [] {
      assert Truthy(flat[0].value);
    }
  }

  // ---------------------------------------------------------------------------
  // The nested `results`

  /** A tree whose values `depth` levels down are numbers, with dicts at every level above. */
  predicate Shaped(j: Json, depth: nat)
    decreases depth
  {
    if depth == 0 then j.Num?
    else j.Obj? && forall i | 0 <= i < |j.fields| :: Shaped(j.fields[i].value, depth - 1)
  }

  lemma PutShaped(fs: seq<Field>, k: string, x: Json, depth: nat)
    requires Shaped(Obj(fs), depth + 1) && Shaped(x, depth)
    ensures Shaped(Obj(Put(fs, k, x)), depth + 1)
  {
    PutEntries(fs, k, x);
  }

  lemma GetShaped(fs: seq<Field>, k: string, depth: nat)
    requires Shaped(Obj(fs), depth + 1) && Get(fs, k).Some?
    ensures Shaped(Get(fs, k).value, depth)
  {
    GetIsEntry(fs, k);
  }

  /**
   * On a tree with numbers exactly as deep as the path, an increment never
   * fails and keeps that shape: the TypeError of `safe_nested_increment`
   * cannot arise in `count_matching_fields`.
   */
  lemma {:induction false} IncrementShaped(d: seq<Field>, keys: seq<string>, v: int)
    requires |keys| >= 1 && Shaped(Obj(d), |keys|)
    ensures Helpers.Increment(d, keys, v).Ok? && Shaped(Obj(Helpers.Increment(d, keys, v).value), |keys|)
    decreases |keys|
  {
    var k := keys[0];
    if Get(d, k).Some? {
      GetShaped(d, k, |keys| - 1);
    }
    if |keys| == 1 {
      var x := Helpers.AddTo(Get(d, k), v);
      assert Helpers.Increment(d, keys, v) == Ok(Put(d, k, x.value));
      PutShaped(d, k, x.value, 0);
    } else {
      var child := Helpers.ChildDict(d, k);
      assert Shaped(Obj(child), |keys| - 1);
      IncrementShaped(child, keys[1..], v);
      var rc := Helpers.Increment(child, keys[1..], v).value;
      assert Helpers.Increment(d, keys, v) == Ok(Put(d, k, Obj(rc)));
      PutShaped(d, k, Obj(rc), |keys| - 1);
    }
  }

  /** How deep the counts of `results` sit: key, group; or key, type, group. */
  function Depth(countType: bool): nat {
    if countType then 3 else 2
  }

  /** `flat_types.get(key, "unknown")`. */
  function TypeOf(types: seq<Field>, key: string): string {
    match Get(types, key)
    case Some(Str(t)) => t
    case _ => "unknown"
  }

  /** The keys `safe_nested_increment` is called with for `key`. */
  function KeyPath(countType: bool, types: seq<Field>, group: string, key: string): (p: seq<string>)
    ensures |p| == Depth(countType) && p[0] == key
  {
    if countType then [key, TypeOf(types, key), group] else [key, group]
  }

  /** A tally as a number. */
  function Count(v: Json): int {
    if v.Num? then v.n else 0
  }

  /** `results` after the loop over `flat.items()` has added the first entries of `flat`. */
  function AddCounts(countType: bool, results: seq<Field>, entries: seq<Field>, types: seq<Field>, group: string): (r: seq<Field>)
    requires Shaped(Obj(results), Depth(countType))
    ensures Shaped(Obj(r), Depth(countType))
    decreases |entries|
  {
    if entries == [] then results
    else
      var prev := AddCounts(countType, results, entries[..|entries| - 1], types, group);
      var e := entries[|entries| - 1];
      var path := KeyPath(countType, types, group, e.key);
      IncrementShaped(prev, path, Count(e.value));
      Helpers.Increment(prev, path, Count(e.value)).value
  }

  /**
   * Adding the tallies `entries` to `results`: the count at a key's path
   * grows by that key's tally, and the path of a key without a tally is
   * left alone.
   */
  lemma {:induction false} AddCountsGet(countType: bool, results: seq<Field>, entries: seq<Field>, types: seq<Field>, group: string, key: string)
    requires Shaped(Obj(results), Depth(countType)) && UniqueKeys(entries)
    ensures var p := KeyPath(countType, types, group, key);
      Helpers.GetPath(AddCounts(countType, results, entries, types, group), p) ==
        match Get(entries, key)
        case None => Helpers.GetPath(results, p)
        case Some(x) => Some(Helpers.Added(Helpers.GetPath(results, p), Count(x)))
    decreases |entries|
  {
    if entries != [] {
      var init := entries[..|entries| - 1];
      var e := entries[|entries| - 1];
      assert entries == init + [e];
      assert UniqueKeys(init) by {
        assert forall i | 0 <= i < |init| :: init[i] == entries[i];
      }
      AddCountsGet(countType, results, init, types, group, key);
      var prev := AddCounts(countType, results, init, types, group);
      var p := KeyPath(countType, types, group, key);
      var pe := KeyPath(countType, types, group, e.key);
      var c := Count(e.value);
      IncrementShaped(prev, pe, c);
      Helpers.GetAppend(init, e, key);
      if e.key == key {
        LastKeyIsNew(entries);
        Helpers.IncrementAdds(prev, pe, c);
      } else {
        assert pe[0] != p[0];
        Helpers.IncrementSiblings(prev, pe, c, p);
      }
    }
  }

  /** In a dict, the last entry's key is not among the earlier ones. */
  lemma LastKeyIsNew(entries: seq<Field>)
    requires UniqueKeys(entries) && entries != []
    ensures Get(entries[..|entries| - 1], entries[|entries| - 1].key).None?
  {
  }

  /** The group of an item: `find_group_value` when `group_by` is given and non-empty, else "<global>". */
  function ItemGroup(item: seq<Field>, groupBy: Option<string>, groupType: GroupType): string {
    if groupBy.Some? && groupBy.value != "" then GroupValue(item, groupBy.value, groupType) else "<global>"
  }

  /** One pass of the outer loop of `count_matching_fields`. */
  function ItemStep(q: Query, results: seq<Field>, item: seq<Field>, groupBy: Option<string>, groupType: GroupType): (r: seq<Field>)
    requires Shaped(Obj(results), Depth(q.countType))
    ensures Shaped(Obj(r), Depth(q.countType))
  {
    var ms := Marks(q, Leaves(Obj(item), ""));
    var flat := Tally(ms);
    if AnyTruthy(flat) then AddCounts(q.countType, results, flat, Types(ms, q.countType), ItemGroup(item, groupBy, groupType))
    else results
  }

  /**
   * One item adds, at each key's path under the item's group, the number of
   * the item's leaves counted under that key; a key with none keeps its count.
   */
  lemma ItemCounts(q: Query, results: seq<Field>, item: seq<Field>, groupBy: Option<string>, groupType: GroupType, key: string)
    requires Shaped(Obj(results), Depth(q.countType))
    ensures var ms := Marks(q, Leaves(Obj(item), ""));
      var p := KeyPath(q.countType, Types(ms, q.countType), ItemGroup(item, groupBy, groupType), key);
      Helpers.GetPath(ItemStep(q, results, item, groupBy, groupType), p) ==
        if Occurrences(ms, key) == 0 then Helpers.GetPath(results, p)
        else Some(Helpers.Added(Helpers.GetPath(results, p), Occurrences(ms, key)))
  {
    var ms := Marks(q, Leaves(Obj(item), ""));
    var flat := Tally(ms);
    var types := Types(ms, q.countType);
    var group := ItemGroup(item, groupBy, groupType);
    TallyShape(ms);
    TallyCounts(ms, key);
    if AnyTruthy(flat) {
      assert ItemStep(q, results, item, groupBy, groupType) == AddCounts(q.countType, results, flat, types, group);
      AddCountsGet(q.countType, results, flat, types, group, key);
    } else {
      assert ItemStep(q, results, item, groupBy, groupType) == results;
      GetIsEntry(flat, key);
    }
  }

  /** An item none of whose leaves is counted leaves `results` as it was. */
  lemma ItemSkipped(q: Query, results: seq<Field>, item: seq<Field>, groupBy: Option<string>, groupType: GroupType)
    requires Shaped(Obj(results), Depth(q.countType))
    requires forall leaf | leaf in Leaves(Obj(item), "") :: !Counted(q, leaf)
    ensures ItemStep(q, results, item, groupBy, groupType) == results
  {
    var leaves := Leaves(Obj(item), "");
    var ms := Marks(q, leaves);
    MarksAt(q, leaves);
    Contributes(ms);
    assert forall i | 0 <= i < |ms| :: !ms[i].counted by {
      assert forall i | 0 <= i < |leaves| :: leaves[i] in leaves;
    }
  }

  /** `count_matching_fields(items, ...)` without a logic expression. */
  function CountMatching(q: Query, items: seq<seq<Field>>, groupBy: Option<string>, groupType: GroupType): (r: seq<Field>)
    ensures Shaped(Obj(r), Depth(q.countType))
    decreases |items|
  {
    if items == [] then []
    else ItemStep(q, CountMatching(q, items[..|items| - 1], groupBy, groupType), items[|items| - 1], groupBy, groupType)
  }

  /** One call of the visitor `count_visitor`: `flat` and `flat_types` after it has seen `leaf`. */
  method VisitLeaf(q: Query, leaf: Leaf, flat: seq<Field>, flatTypes: seq<Field>)
    returns (flat': seq<Field>, flatTypes': seq<Field>)
    ensures flat' == Visit(flat, MarkOf(q, leaf))
    ensures flatTypes' == Note(flatTypes, MarkOf(q, leaf), q.countType)
  {
    flat', flatTypes' := flat, flatTypes;
    var baseName := LastPart(leaf.path, '.');
    var matched := exists fn | fn in q.fieldNames :: fn == leaf.path || fn == baseName || ('*' in fn && Glob(fn, leaf.path));
    if matched {
      var key := if leaf.path in q.fieldNames then leaf.path else baseName;
      var value := leaf.value;
      if q.matchType == NonNull && !IsNullLike(value) {
        flat' := Put(flat, key, Bump(flat, key));
      } else if q.matchType == IsNull && IsNullLike(value) {
        flat' := Put(flat, key, Bump(flat, key));
      } else if (q.matchType == Fixed || q.matchType == Regex) && MatchCondition(value, q.matchType, q.valueMatch, q.search) {
        flat' := Put(flat, key, Bump(flat, key));
      }
      if q.countType {
        flatTypes' := Put(flatTypes, key, Str(q.classify(value)));
      }
    }
  }

  /** `recursive_descent(item, count_visitor)` from empty `flat` and `flat_types`. */
  method TallyLeaves(q: Query, leaves: seq<Leaf>) returns (flat: seq<Field>, flatTypes: seq<Field>)
    ensures flat == Tally(Marks(q, leaves))
    ensures flatTypes == Types(Marks(q, leaves), q.countType)
  {
    flat, flatTypes := [], [];
    for i := 0 to |leaves|
      invariant flat == Tally(Marks(q, leaves[..i]))
      invariant flatTypes == Types(Marks(q, leaves[..i]), q.countType)
    {
      var ms := Marks(q, leaves[..i]);
      assert leaves[..i + 1][..i] == leaves[..i];
      assert Marks(q, leaves[..i + 1]) == ms + [MarkOf(q, leaves[i])];
      assert (ms + [MarkOf(q, leaves[i])])[..|ms|] == ms;
      flat, flatTypes := VisitLeaf(q, leaves[i], flat, flatTypes);
    }
    assert leaves[..|leaves|] == leaves;
  }

  /** The loop over `flat.items()`: one `safe_nested_increment` per tallied key. */
  method AddFlatCounts(countType: bool, results: seq<Field>, flat: seq<Field>, flatTypes: seq<Field>, group: string)
    returns (r: seq<Field>)
    requires Shaped(Obj(results), Depth(countType))
    ensures r == AddCounts(countType, results, flat, flatTypes, group)
  {
    r := results;
    for j := 0 to |flat|
      invariant r == AddCounts(countType, results, flat[..j], flatTypes, group)
    {
      assert flat[..j + 1][..j] == flat[..j];
      var key := flat[j].key;
      var path := if countType then [key, TypeOf(flatTypes, key), group] else [key, group];
      assert path == KeyPath(countType, flatTypes, group, key);
      IncrementShaped(r, path, Count(flat[j].value));
      var incremented := Helpers.SafeNestedIncrement(r, path, Count(flat[j].value));
      r := incremented.value;
    }
    assert flat[..|flat|] == flat;
  }

  /** The loops of `count_matching_fields`, with `results` updated item by item. */
  method CountMatchingFields(q: Query, items: seq<seq<Field>>, groupBy: Option<string>, groupType: GroupType)
    returns (results: seq<Field>)
    ensures results == CountMatching(q, items, groupBy, groupType)
  {
    results := [];
    for n := 0 to |items|
      invariant results == CountMatching(q, items[..n], groupBy, groupType)
    {
      assert items[..n + 1][..n] == items[..n];
      var item := items[n];
      var flat, flatTypes := TallyLeaves(q, Leaves(Obj(item), ""));
      if AnyTruthy(flat) {
        var group := "<global>";
        if groupBy.Some? && groupBy.value != "" {
          group := FindGroupValue(item, groupBy.value, groupType);
        }
        results := AddFlatCounts(q.countType, results, flat, flatTypes, group);
      }
    }
    assert items[..|items|] == items;
  }
}
