/**
 * `utils/extract_embed.py`: cleaning of extracted text (`strip_embedded_nl`,
 * `sanitize`), the heuristics that simplify a list of permissible values,
 * the normalisation of an extracted value, and `strip_json`.
 */
module ExtractEmbed {
  import opened Strings
  import opened Json
  import PathUtils

  // ---------------------------------------------------------------------------
  // strip_embedded_nl

  /** No two spaces in a row. */
  predicate SingleSpaced(s: string) {
    forall i | 0 <= i < |s| - 1 :: !(s[i] == ' ' && s[i + 1] == ' ')
  }

  /** What `strip_embedded_nl` promises: no CR, no LF, no double space, no surrounding whitespace. */
  predicate Clean(s: string) {
    '\r' !in s && '\n' !in s && SingleSpaced(s) && (s == [] || (!IsSpace(s[0]) && !IsSpace(s[|s| - 1])))
  }

  /** `s` without its leading run of `c`. */
  function DropRun(s: string, c: char): (r: string)
    ensures |r| <= |s| && r == s[|s| - |r|..]
    ensures r == [] || r[0] != c
    decreases |s|
  {
    if s != [] && s[0] == c then DropRun(s[1..], c) else s
  }

  /**
   * Every maximal run of `c` replaced by one space. With `c == '\n'` this is
   * `MULTI_NL.sub(" ", s)` (`\n\n*`); with `c == ' '` it is
   * `MULTI_SPACE.sub(" ", s)` (` {2,}`), a run of one space being one space
   * already.
   */
  function Squeeze(s: string, c: char): (r: string)
    ensures |r| <= |s|
    ensures s != [] ==> r != [] && r[0] == (if s[0] == c then ' ' else s[0])
    decreases |s|
  {
    if s == [] then []
    else if s[0] == c then " " + Squeeze(DropRun(s[1..], c), c)
    else [s[0]] + Squeeze(s[1..], c)
  }

  /** `DOS_NL.sub("\n", s)` then `MAC_NL.sub("\n", ...)`: every line ending becomes LF. */
  function ToLf(s: string): string {
    ReplaceAll(ReplaceAll(s, "\r\n", "\n"), "\r", "\n")
  }

  /** `strip_embedded_nl` on a string: LF endings, runs of LF to a space, runs of spaces to one, then `strip()`. */
  function CleanText(s: string): string {
    Strip(Squeeze(Squeeze(ToLf(s), '\n'), ' '))
  }

  /** `strip_embedded_nl(text)`: a string is cleaned, anything else is returned as it is. */
  function StripEmbeddedNl(text: Json): (r: Json)
    ensures r.Str? <==> text.Str?
    ensures r.Str? ==> Clean(r.s)
    ensures !text.Str? ==> r == text
  {
    if text.Str? then
      CleanTextIsClean(text.s);
      Str(CleanText(text.s))
    else text
  }

  /** Replacing every `c` by a text without `c` leaves no `c`. */
  lemma {:induction false} ReplaceDrops(s: string, c: char, rep: string)
    requires c !in rep
    ensures c !in ReplaceAll(s, [c], rep)
    decreases |s|
  {
    if |s| >= 1 {
      ReplaceDrops(s[1..], c, rep);
      if [c] <= s {
        assert s[1..] == s[|[c]|..];
      }
    }
  }

  lemma {:induction false} SqueezeDrops(s: string, c: char)
    requires c != ' '
    ensures c !in Squeeze(s, c)
    decreases |s|
  {
    if s != [] {
      if s[0] == c {
        SqueezeDrops(DropRun(s[1..], c), c);
      } else {
        SqueezeDrops(s[1..], c);
      }
    }
  }

  lemma {:induction false} SqueezeKeeps(s: string, c: char, d: char)
    requires d != ' ' && d !in s
    ensures d !in Squeeze(s, c)
    decreases |s|
  {
    if s != [] {
      if s[0] == c {
        var t := DropRun(s[1..], c);
        assert forall i | 0 <= i < |t| :: t[i] == s[1..][|s| - 1 - |t| + i];
        SqueezeKeeps(t, c, d);
      } else {
        SqueezeKeeps(s[1..], c, d);
      }
    }
  }

  lemma {:induction false} SqueezeSingleSpaced(s: string)
    ensures SingleSpaced(Squeeze(s, ' '))
    decreases |s|
  {
    if s != [] {
      if s[0] == ' ' {
        var t := DropRun(s[1..], ' ');
        SqueezeSingleSpaced(t);
        assert Squeeze(s, ' ') == [' '] + Squeeze(t, ' ');
        ConsSpaced(' ', Squeeze(t, ' '));
      } else {
        SqueezeSingleSpaced(s[1..]);
        assert Squeeze(s, ' ') == [s[0]] + Squeeze(s[1..], ' ');
        ConsSpaced(s[0], Squeeze(s[1..], ' '));
      }
    }
  }

  lemma ConsSpaced(c: char, x: string)
    requires SingleSpaced(x) && (c != ' ' || x == [] || x[0] != ' ')
    ensures SingleSpaced([c] + x)
  {
    var r := [c] + x;
    forall i | 0 <= i < |r| - 1
      ensures !(r[i] == ' ' && r[i + 1] == ' ')
    {
      if i > 0 {
        assert r[i] == x[i - 1] && r[i + 1] == x[i];
      }
    }
  }

  /** A part of a string has no character the string lacks, and no double space if the string has none. */
  lemma SubstringKeeps(r: string, s: string)
    requires IsSubstring(r, s)
    ensures forall c | c in r :: c in s
    ensures SingleSpaced(s) ==> SingleSpaced(r)
  {
    var i :| 0 <= i <= |s| - |r| && r <= s[i..];
    assert forall j | 0 <= j < |r| :: r[j] == s[i + j];
  }

  /** The result of `strip_embedded_nl` is clean. */
  lemma CleanTextIsClean(s: string)
    ensures Clean(CleanText(s))
  {
    var a := ToLf(s);
    ReplaceDrops(ReplaceAll(s, "\r\n", "\n"), '\r', "\n");
    var b := Squeeze(a, '\n');
    SqueezeDrops(a, '\n');
    SqueezeKeeps(a, '\n', '\r');
    var c := Squeeze(b, ' ');
    SqueezeKeeps(b, ' ', '\r');
    SqueezeKeeps(b, ' ', '\n');
    SqueezeSingleSpaced(b);
    SubstringKeeps(Strip(c), c);
  }

  lemma {:induction false} SqueezeAbsent(s: string, c: char)
    requires c !in s
    ensures Squeeze(s, c) == s
    decreases |s|
  {
    if s != [] {
      SqueezeAbsent(s[1..], c);
    }
  }

  lemma {:induction false} SqueezeSpacedSame(s: string)
    requires SingleSpaced(s)
    ensures Squeeze(s, ' ') == s
    decreases |s|
  {
    if s != [] {
      var t := s[1..];
      assert SingleSpaced(t) by {
        assert forall i | 0 <= i < |t| :: t[i] == s[i + 1];
      }
      SqueezeSpacedSame(t);
      if s[0] == ' ' && t != [] {
        assert !(s[0] == ' ' && s[1] == ' ');
        assert t[0] != ' ';
        assert DropRun(t, ' ') == t;
      }
    }
  }

  lemma CharAbsent(s: string, c: char, pat: string)
    requires c !in s && pat != [] && pat[0] == c
    ensures !IsSubstring(pat, s)
  {
  }

  /** A clean string is its own `strip_embedded_nl`. */
  lemma CleanTextFixes(s: string)
    requires Clean(s)
    ensures CleanText(s) == s
  {
    CharAbsent(s, '\r', "\r\n");
    ReplaceAbsent(s, "\r\n", "\n");
    CharAbsent(s, '\r', "\r");
    ReplaceAbsent(s, "\r", "\n");
    assert ToLf(s) == s;
    SqueezeAbsent(s, '\n');
    SqueezeSpacedSame(s);
    assert Squeeze(Squeeze(ToLf(s), '\n'), ' ') == s;
    StripClean(s);
  }

  /** A string without surrounding whitespace is its own `strip()`. */
  lemma StripClean(s: string)
    requires s == [] || (!IsSpace(s[0]) && !IsSpace(s[|s| - 1]))
    ensures Strip(s) == s
  {
    if s != [] {
      PathUtils.StripUnpadded(s);
    } else {
      assert DropSpaces(s) == s;
    }
  }

  /** `strip_embedded_nl` is idempotent. */
  lemma CleanTextIdempotent(s: string)
    ensures CleanText(CleanText(s)) == CleanText(s)
  {
    CleanTextIsClean(s);
    CleanTextFixes(CleanText(s));
  }

  // ---------------------------------------------------------------------------
  // sanitize

  /** `sanitize(s)`: `None` is "", anything else is `str(s).strip()` cleaned by `strip_embedded_nl`. */
  function Sanitize(j: Json): string {
    if j.Null? then "" else CleanText(Strip(PyStr(j)))
  }

  /** What `sanitize` returns is clean, and `sanitize(None)` is "". */
  lemma SanitizeIsClean(j: Json)
    ensures Clean(Sanitize(j))
    ensures j.Null? ==> Sanitize(j) == ""
  {
    if !j.Null? {
      CleanTextIsClean(Strip(PyStr(j)));
    }
  }

  /** A clean string passes `sanitize` unchanged. */
  lemma SanitizeClean(s: string)
    requires Clean(s)
    ensures Sanitize(Str(s)) == s
  {
    assert PyStr(Str(s)) == s;
    StripClean(s);
    CleanTextFixes(s);
  }

  /** `sanitize` is idempotent. */
  lemma SanitizeIdempotent(j: Json)
    ensures Sanitize(Str(Sanitize(j))) == Sanitize(j)
  {
    SanitizeIsClean(j);
    SanitizeClean(Sanitize(j));
  }

  // ---------------------------------------------------------------------------
  // simplify_permissible_values

  /** `item.get(key, "")`. */
  function GetOr(fs: seq<Field>, key: string): Json {
    match Get(fs, key)
    case Some(v) => v
    case None => Str("")
  }

  /** Python's `a or b`: `a` when it is truthy, else `b`. */
  function Or(a: Json, b: Json): Json {
    if Truthy(a) then a else b
  }

  /** `NUM_LIST.search(s)` for `(?:\d+;; )+`: a digit directly followed by ";; ". */
  predicate HasNumList(s: string) {
    exists j | 0 <= j && j + 4 <= |s| :: IsAsciiDigit(s[j]) && s[j + 1..j + 4] == ";; "
  }

  /** The text shown beside a value: the definition of its meaning, else its name, else "". */
  function Secondary(fs: seq<Field>): Json {
    Or(GetOr(fs, "valueMeaningDefinition"), Or(GetOr(fs, "valueMeaningName"), Str("")))
  }

  /** The permissible value and the secondary text one dict item yields, "" where one is dropped. */
  function PvPair(fs: seq<Field>): (string, string) {
    var pv := Sanitize(GetOr(fs, "permissibleValue"));
    var sec := Sanitize(Secondary(fs));
    var sec' := if pv == sec then "" else sec;
    (if HasNumList(pv) then "" else pv, if HasNumList(sec') then "" else sec')
  }

  /** `result["permissibleValue"]` after the items `items`. */
  function PvList(items: seq<Json>): seq<string>
    decreases |items|
  {
    if items == [] then []
    else
      var prev := PvList(items[..|items| - 1]);
      var x := items[|items| - 1];
      if x.Obj? && PvPair(x.fields).0 != "" then prev + [PvPair(x.fields).0] else prev
  }

  /** `result["secondary"]` after the items `items`. */
  function SecondaryList(items: seq<Json>): seq<string>
    decreases |items|
  {
    if items == [] then []
    else
      var prev := SecondaryList(items[..|items| - 1]);
      var x := items[|items| - 1];
      if x.Obj? && PvPair(x.fields).1 != "" then prev + [PvPair(x.fields).1] else prev
  }

  /** Strings as JSON strings. */
  function Strs(ss: seq<string>): (r: seq<Json>)
    ensures |r| == |ss| && forall i | 0 <= i < |ss| :: r[i] == Str(ss[i])
  {
    if ss == [] then [] else [Str(ss[0])] + Strs(ss[1..])
  }

  /** The value `simplify_permissible_values(pv_list, collapse)` returns. */
  function Simplified(pvList: Json, collapse: bool): Json {
    if !pvList.Arr? then Obj([])
    else
      var pvs := PvList(pvList.elems);
      var secs := SecondaryList(pvList.elems);
      if collapse then Obj([Field("permissibleValue", Str(Join(pvs, ";; "))), Field("secondary", Str(Join(secs, ";; ")))])
      else Obj([Field("permissibleValue", Arr(Strs(pvs))), Field("secondary", Arr(Strs(secs)))])
  }

  /** `simplify_permissible_values`: one pass over the list, appending to the two result lists. */
  method SimplifyPermissibleValues(pvList: Json, collapse: bool) returns (r: Json)
    ensures r == Simplified(pvList, collapse)
  {
    if !pvList.Arr? {
      return Obj([]);
    }
    var items := pvList.elems;
    var pvs: seq<string> := [];
    var secs: seq<string> := [];
    for n := 0 to |items|
      invariant pvs == PvList(items[..n]) && secs == SecondaryList(items[..n])
    {
      assert items[..n + 1][..n] == items[..n];
      var item := items[n];
      if !item.Obj? {
        continue;
      }
      var pv := GetOr(item.fields, "permissibleValue");
      var vmd := GetOr(item.fields, "valueMeaningDefinition");
      var vmn := GetOr(item.fields, "valueMeaningName");
      var secondary := Or(vmd, Or(vmn, Str("")));
      var pvStr := Sanitize(pv);
      var secondaryStr := Sanitize(secondary);
      if pvStr == secondaryStr {
        secondaryStr := "";
      }
      if HasNumList(pvStr) {
        pvStr := "";
      }
      if HasNumList(secondaryStr) {
        secondaryStr := "";
      }
      if pvStr != "" {
        pvs := pvs + [pvStr];
      }
      if secondaryStr != "" {
        secs := secs + [secondaryStr];
      }
    }
    assert items[..|items|] == items;
    if collapse {
      r := Obj([Field("permissibleValue", Str(Join(pvs, ";; "))), Field("secondary", Str(Join(secs, ";; ")))]);
    } else {
      r := Obj([Field("permissibleValue", Arr(Strs(pvs))), Field("secondary", Arr(Strs(secs)))]);
    }
  }

  /** What one item contributes: a kept value is its sanitized `permissibleValue`; a kept secondary differs from it. */
  lemma PvPairKept(fs: seq<Field>)
    ensures PvPair(fs).0 != "" ==> PvPair(fs).0 == Sanitize(GetOr(fs, "permissibleValue")) && !HasNumList(PvPair(fs).0)
    ensures PvPair(fs).1 != "" ==>
      PvPair(fs).1 == Sanitize(Secondary(fs)) && PvPair(fs).1 != Sanitize(GetOr(fs, "permissibleValue"))
      && !HasNumList(PvPair(fs).1)
  {
  }

  /** Every listed value is a non-empty clean string with no numbered list in it. */
  lemma {:induction false} PvListClean(items: seq<Json>, i: nat)
    requires i < |PvList(items)|
    ensures PvList(items)[i] != "" && Clean(PvList(items)[i]) && !HasNumList(PvList(items)[i])
    decreases |items|
  {
    var init := items[..|items| - 1];
    var x := items[|items| - 1];
    if x.Obj? && PvPair(x.fields).0 != "" && i == |PvList(init)| {
      PvPairClean(x.fields);
    } else {
      PvListClean(init, i);
    }
  }

  /** Every listed secondary text is a non-empty clean string with no numbered list in it. */
  lemma {:induction false} SecondaryListClean(items: seq<Json>, i: nat)
    requires i < |SecondaryList(items)|
    ensures SecondaryList(items)[i] != "" && Clean(SecondaryList(items)[i]) && !HasNumList(SecondaryList(items)[i])
    decreases |items|
  {
    var init := items[..|items| - 1];
    var x := items[|items| - 1];
    if x.Obj? && PvPair(x.fields).1 != "" && i == |SecondaryList(init)| {
      PvPairClean(x.fields);
    } else {
      SecondaryListClean(init, i);
    }
  }

  lemma PvPairClean(fs: seq<Field>)
    ensures Clean(PvPair(fs).0) && Clean(PvPair(fs).1)
  {
    SanitizeIsClean(GetOr(fs, "permissibleValue"));
    SanitizeIsClean(Secondary(fs));
  }

  // ---------------------------------------------------------------------------
  // normalize_extracted_value

  /** `[sanitize(v) for v in vs if v is not None]`. */
  function SanitizeAll(vs: seq<Json>): seq<string>
  {
    if vs == [] then []
    else
      var rest := SanitizeAll(vs[1..]);
      if vs[0].Null? then rest else [Sanitize(vs[0])] + rest
  }

  /** The dicts of a list all of whose items are dicts. */
  function DictsOf(es: seq<Json>): (r: seq<seq<Field>>)
    requires forall i | 0 <= i < |es| :: es[i].Obj?
    ensures |r| == |es| && forall i | 0 <= i < |es| :: r[i] == es[i].fields
  {
    if es == [] then [] else [es[0].fields] + DictsOf(es[1..])
  }

  /** The joined value of one key: its values, None dropped, sanitized (a second time with `collapse`). */
  function Entry(vdata: seq<Json>, collapse: bool): string {
    var once := SanitizeAll(vdata);
    Join(if collapse then SanitizeAll(Strs(once)) else once, ";; ")
  }

  /** The result dict, one entry per key in `keys`. */
  function Entries(keys: seq<string>, dicts: seq<seq<Field>>, collapse: bool): (r: seq<Field>)
    ensures Keys(r) == keys
  {
    if keys == [] then []
    else [Field(keys[0], Str(Entry(PathUtils.ValuesUnder(dicts, keys[0]), collapse)))] + Entries(keys[1..], dicts, collapse)
  }

  /** `normalize_extracted_value(val, collapse)`. */
  function NormalizeExtracted(val: Json, collapse: bool): Json {
    if !val.Arr? then val
    else if forall i | 0 <= i < |val.elems| :: val.elems[i].Obj? then
      var dicts := DictsOf(val.elems);
      Obj(Entries(PathUtils.KeyOrder(dicts), dicts, collapse))
    else Str(Join(SanitizeAll(val.elems), ";; "))
  }

  /**
   * A list of dicts becomes one dict whose keys are those found in any of
   * the dicts, each once, with every value a string.
   */
  lemma NormalizedDict(val: Json, collapse: bool, k: string)
    requires val.Arr? && forall i | 0 <= i < |val.elems| :: val.elems[i].Obj?
    ensures NormalizeExtracted(val, collapse).Obj?
    ensures UniqueKeys(NormalizeExtracted(val, collapse).fields)
    ensures k in Keys(NormalizeExtracted(val, collapse).fields)
            <==> exists i | 0 <= i < |val.elems| :: k in Keys(val.elems[i].fields)
  {
    var dicts := DictsOf(val.elems);
    PathUtils.KeyOrderCovers(dicts, k);
    PathUtils.KeyOrderDistinct(dicts);
    var r := Entries(PathUtils.KeyOrder(dicts), dicts, collapse);
    assert forall i | 0 <= i < |r| :: r[i].key == Keys(r)[i];
  }

  /** The value under each key is the ";; " join of that key's values with None dropped. */
  lemma {:induction false} EntriesAt(keys: seq<string>, dicts: seq<seq<Field>>, collapse: bool, i: nat)
    requires i < |keys|
    ensures Entries(keys, dicts, collapse)[i].value == Str(Entry(PathUtils.ValuesUnder(dicts, keys[i]), collapse))
    decreases |keys|
  {
    if i > 0 {
      EntriesAt(keys[1..], dicts, collapse, i - 1);
    }
  }

  /** `collapse` makes no difference: the second sanitizing pass changes nothing. */
  lemma CollapseIrrelevant(val: Json)
    ensures NormalizeExtracted(val, true) == NormalizeExtracted(val, false)
  {
    if val.Arr? && forall i | 0 <= i < |val.elems| :: val.elems[i].Obj? {
      var dicts := DictsOf(val.elems);
      EntriesCollapse(PathUtils.KeyOrder(dicts), dicts);
    }
  }

  lemma {:induction false} EntriesCollapse(keys: seq<string>, dicts: seq<seq<Field>>)
    ensures Entries(keys, dicts, true) == Entries(keys, dicts, false)
    decreases |keys|
  {
    if keys != [] {
      EntriesCollapse(keys[1..], dicts);
      ResanitizeSame(PathUtils.ValuesUnder(dicts, keys[0]));
    }
  }

  /** Sanitizing the sanitized values again gives them back. */
  lemma {:induction false} ResanitizeSame(vs: seq<Json>)
    ensures SanitizeAll(Strs(SanitizeAll(vs))) == SanitizeAll(vs)
    decreases |vs|
  {
    if vs != [] {
      var rest := SanitizeAll(vs[1..]);
      ResanitizeSame(vs[1..]);
      if !vs[0].Null? {
        var x := Sanitize(vs[0]);
        SanitizeIdempotent(vs[0]);
        var js := Strs([x] + rest);
        assert js[0] == Str(x) && js[1..] == Strs(rest);
      }
    }
  }

  /** Every value joined into an entry is clean. */
  lemma {:induction false} SanitizeAllClean(vs: seq<Json>, i: nat)
    requires i < |SanitizeAll(vs)|
    ensures Clean(SanitizeAll(vs)[i])
    decreases |vs|
  {
    var rest := SanitizeAll(vs[1..]);
    if vs[0].Null? {
      assert SanitizeAll(vs) == rest;
      SanitizeAllClean(vs[1..], i);
    } else {
      assert SanitizeAll(vs) == [Sanitize(vs[0])] + rest;
      SanitizeIsClean(vs[0]);
      if i > 0 {
        SanitizeAllClean(vs[1..], i - 1);
        assert SanitizeAll(vs)[i] == rest[i - 1];
      }
    }
  }

  // ---------------------------------------------------------------------------
  // strip_json, strip_json_list

  /** What `strip_json` does to one value: a string is sanitized, anything else is kept. */
  function CleanValue(v: Json): (r: Json)
    ensures r.Str? <==> v.Str?
    ensures !v.Str? ==> r == v
  {
    if v.Str? then Str(Sanitize(v)) else v
  }

  /** A cleaned string value is clean, and cleaning it again changes nothing. */
  lemma CleanValueIdempotent(v: Json)
    ensures CleanValue(v).Str? ==> Clean(CleanValue(v).s)
    ensures CleanValue(CleanValue(v)) == CleanValue(v)
  {
    if v.Str? {
      SanitizeIsClean(v);
      SanitizeIdempotent(v);
    }
  }

  /** `strip_json(obj)`: the entries of `obj`, in order, each value passed through `CleanValue`. */
  function StripJson(fs: seq<Field>): (r: seq<Field>)
    ensures |r| == |fs|
  {
    if fs == [] then [] else [Field(fs[0].key, CleanValue(fs[0].value))] + StripJson(fs[1..])
  }

  /** Entry `i` of the result has the key of entry `i` and its cleaned value. */
  lemma {:induction false} StripJsonAt(fs: seq<Field>, i: nat)
    requires i < |fs|
    ensures StripJson(fs)[i] == Field(fs[i].key, CleanValue(fs[i].value))
    decreases |fs|
  {
    if i > 0 {
      StripJsonAt(fs[1..], i - 1);
    }
  }

  /** The result has the same keys in the same order, and every string value in it is clean. */
  lemma StripJsonKeys(fs: seq<Field>)
    ensures Keys(StripJson(fs)) == Keys(fs)
    ensures forall i | 0 <= i < |fs| :: StripJson(fs)[i].value.Str? ==> Clean(StripJson(fs)[i].value.s)
  {
    forall i | 0 <= i < |fs|
      ensures StripJson(fs)[i].key == fs[i].key
      ensures StripJson(fs)[i].value.Str? ==> Clean(StripJson(fs)[i].value.s)
    {
      StripJsonAt(fs, i);
      CleanValueIdempotent(fs[i].value);
    }
  }

  /** `strip_json` is idempotent. */
  lemma StripJsonIdempotent(fs: seq<Field>)
    ensures StripJson(StripJson(fs)) == StripJson(fs)
  {
    var r := StripJson(fs);
    forall i | 0 <= i < |fs|
      ensures StripJson(r)[i] == r[i]
    {
      StripJsonAt(fs, i);
      StripJsonAt(r, i);
      CleanValueIdempotent(fs[i].value);
    }
  }

  /** `strip_json_list`: `strip_json` on every record, in order. */
  function StripJsonList(objs: seq<seq<Field>>): (r: seq<seq<Field>>)
    ensures |r| == |objs|
  {
    if objs == [] then [] else [StripJson(objs[0])] + StripJsonList(objs[1..])
  }

  lemma {:induction false} StripJsonListAt(objs: seq<seq<Field>>, i: nat)
    requires i < |objs|
    ensures StripJsonList(objs)[i] == StripJson(objs[i])
    decreases |objs|
  {
    if i > 0 {
      StripJsonListAt(objs[1..], i - 1);
    }
  }
}
