/**
 * `fix_keys` from `actions/fix_underscores.py`: every dict key that starts
 * with an underscore, at a depth within reach, gets a prefix; the tree is
 * rebuilt and the input is left alone. Dict values are one level deeper
 * than their dict; list items are at the depth of their list.
 */
module FixUnderscores {
  import opened Wrappers
  import opened Json
  import Seqs

  /** `key.startswith("_")`. */
  predicate Underscored(key: string) {
    |key| > 0 && key[0] == '_'
  }

  /** `max_depth is None or current_depth <= max_depth`. */
  predicate InReach(maxDepth: Option<int>, depth: int) {
    maxDepth.None? || depth <= maxDepth.value
  }

  /** The key an entry is stored under in `new_dict`. */
  function NewKey(key: string, prefix: string, maxDepth: Option<int>, depth: int): string {
    if Underscored(key) && InReach(maxDepth, depth) then prefix + key else key
  }

  /** `fix_keys(data, prefix, max_depth, current_depth)`. */
  function FixKeys(data: Json, prefix: string, maxDepth: Option<int>, depth: int): (r: Json)
    ensures IsScalar(data) ==> r == data
    ensures r.Obj? <==> data.Obj?
    ensures data.Arr? ==> r.Arr? && |r.elems| == |data.elems|
    decreases data, 1
  {
    match data
    case Obj(fs) => Obj(FixFields([], fs, prefix, maxDepth, depth))
    case Arr(es) => Arr(FixItems(es, prefix, maxDepth, depth))
    case _ => data
  }

  /**
   * The loop over `data.items()`: `acc` is `new_dict` so far, and each entry
   * is stored with `new_dict[new_key] = ...`, which overwrites the value of
   * a key that is already there.
   */
  function FixFields(acc: seq<Field>, fs: seq<Field>, prefix: string, maxDepth: Option<int>, depth: int): seq<Field>
    decreases fs, 0
  {
    if fs == [] then acc
    else
      var k := NewKey(fs[0].key, prefix, maxDepth, depth);
      var v := FixKeys(fs[0].value, prefix, maxDepth, depth + 1);
      FixFields(Put(acc, k, v), fs[1..], prefix, maxDepth, depth)
  }

  /** `[fix_keys(item, prefix, max_depth, current_depth) for item in data]`. */
  function FixItems(es: seq<Json>, prefix: string, maxDepth: Option<int>, depth: int): (r: seq<Json>)
    ensures |r| == |es|
    decreases es, 0
  {
    if es == [] then [] else [FixKeys(es[0], prefix, maxDepth, depth)] + FixItems(es[1..], prefix, maxDepth, depth)
  }

  /** List items are fixed at the depth of their list, in order. */
  lemma {:induction false} FixItemsAt(es: seq<Json>, prefix: string, maxDepth: Option<int>, depth: int, i: nat)
    requires i < |es|
    ensures FixItems(es, prefix, maxDepth, depth)[i] == FixKeys(es[i], prefix, maxDepth, depth)
    decreases |es|
  {
    if i > 0 {
      FixItemsAt(es[1..], prefix, maxDepth, depth, i - 1);
    }
  }

  /** The value the last entry stored under `k` leaves there, if an entry is stored under `k` at all. */
  function LastWrite(fs: seq<Field>, k: string, prefix: string, maxDepth: Option<int>, depth: int): (r: Option<Json>)
    ensures r.Some? <==> exists i | 0 <= i < |fs| :: NewKey(fs[i].key, prefix, maxDepth, depth) == k
    decreases |fs|
  {
    if fs == [] then None
    else
      var later := LastWrite(fs[1..], k, prefix, maxDepth, depth);
      assert forall i | 1 <= i < |fs| :: fs[i] == fs[1..][i - 1];
      if later.Some? then later
      else if NewKey(fs[0].key, prefix, maxDepth, depth) == k then Some(FixKeys(fs[0].value, prefix, maxDepth, depth + 1))
      else None
  }

  /** `new_dict[k]` is the fixed value of the last entry renamed to `k`; other keys keep what `acc` had. */
  lemma {:induction false} FixFieldsGet(acc: seq<Field>, fs: seq<Field>, prefix: string, maxDepth: Option<int>, depth: int, k: string)
    ensures Get(FixFields(acc, fs, prefix, maxDepth, depth), k)
      == if LastWrite(fs, k, prefix, maxDepth, depth).Some? then LastWrite(fs, k, prefix, maxDepth, depth) else Get(acc, k)
    decreases |fs|
  {
    if fs != [] {
      var k0 := NewKey(fs[0].key, prefix, maxDepth, depth);
      var v0 := FixKeys(fs[0].value, prefix, maxDepth, depth + 1);
      FixFieldsGet(Put(acc, k0, v0), fs[1..], prefix, maxDepth, depth, k);
      if k0 != k {
        PutOther(acc, k0, v0, k);
      }
    }
  }

  /** The keys of the result are exactly the new keys of the input's entries. */
  lemma FixedKeys(fs: seq<Field>, prefix: string, maxDepth: Option<int>, depth: int, k: string)
    ensures k in Keys(FixFields([], fs, prefix, maxDepth, depth))
      <==> exists i | 0 <= i < |fs| :: NewKey(fs[i].key, prefix, maxDepth, depth) == k
  {
    FixFieldsGet([], fs, prefix, maxDepth, depth, k);
  }

  /** Every dict in the tree has distinct keys, as a parsed JSON document does. */
  predicate DictsUnique(j: Json)
    decreases j
  {
    match j
    case Obj(fs) => UniqueKeys(fs) && forall i | 0 <= i < |fs| :: DictsUnique(fs[i].value)
    case Arr(es) => forall i | 0 <= i < |es| :: DictsUnique(es[i])
    case _ => true
  }

  /** Storing under a new key appends the entry. */
  lemma {:induction false} PutNew(fs: seq<Field>, k: string, v: Json)
    requires k !in Keys(fs)
    ensures Put(fs, k, v) == fs + [Field(k, v)]
  {
    if fs != [] {
      var rest := fs[1..];
      assert Keys(fs) == [fs[0].key] + Keys(rest);
      PutNew(rest, k, v);
      PutPast(fs, k, v);
      Seqs.ConsAppend(fs, Field(k, v));
    }
  }

  /** Beyond `max_depth` nothing is renamed: the subtree comes back equal to the input. */
  lemma {:induction false} BeyondReach(data: Json, prefix: string, maxDepth: Option<int>, depth: int)
    requires !InReach(maxDepth, depth) && DictsUnique(data)
    ensures FixKeys(data, prefix, maxDepth, depth) == data
    decreases data, 1
  {
    match data
    case Obj(fs) =>
      assert [] + fs == fs;
      FieldsBeyondReach([], fs, prefix, maxDepth, depth);
    case Arr(es) =>
      var r := FixItems(es, prefix, maxDepth, depth);
      forall i | 0 <= i < |es| ensures r[i] == es[i] {
        FixItemsAt(es, prefix, maxDepth, depth, i);
        BeyondReach(es[i], prefix, maxDepth, depth);
      }
    case _ =>
  }

  lemma {:induction false} FieldsBeyondReach(acc: seq<Field>, fs: seq<Field>, prefix: string, maxDepth: Option<int>, depth: int)
    requires !InReach(maxDepth, depth)
    requires UniqueKeys(acc + fs) && forall i | 0 <= i < |fs| :: DictsUnique(fs[i].value)
    ensures FixFields(acc, fs, prefix, maxDepth, depth) == acc + fs
    decreases fs, 0
  {
    if fs != [] {
      var f := fs[0];
      var rest := fs[1..];
      BeyondReach(f.value, prefix, maxDepth, depth + 1);
      UniqueNext(acc, fs);
      PutNew(acc, f.key, f.value);
      assert forall i | 0 <= i < |rest| :: rest[i] == fs[i + 1];
      FieldsBeyondReach(acc + [f], rest, prefix, maxDepth, depth);
    }
  }

  lemma UniqueNext(acc: seq<Field>, fs: seq<Field>)
    requires fs != [] && UniqueKeys(acc + fs)
    ensures fs[0].key !in Keys(acc) && (acc + [fs[0]]) + fs[1..] == acc + fs
  {
    forall i | 0 <= i < |acc| ensures acc[i].key != fs[0].key {
      assert (acc + fs)[i] == acc[i] && (acc + fs)[|acc|] == fs[0];
    }
    assert (acc + [fs[0]]) + fs[1..] == acc + fs;
  }

  /** No dict key anywhere in the tree starts with an underscore. */
  predicate NoUnderscore(j: Json)
    decreases j
  {
    match j
    case Obj(fs) => forall i | 0 <= i < |fs| :: !Underscored(fs[i].key) && NoUnderscore(fs[i].value)
    case Arr(es) => forall i | 0 <= i < |es| :: NoUnderscore(es[i])
    case _ => true
  }

  /** Every entry of `new_dict` was in `acc` or is an input entry, renamed and fixed. */
  lemma {:induction false} FixFieldsEntries(acc: seq<Field>, fs: seq<Field>, prefix: string, maxDepth: Option<int>, depth: int)
    ensures forall e | e in FixFields(acc, fs, prefix, maxDepth, depth) ::
      e in acc || exists i | 0 <= i < |fs| ::
        e == Field(NewKey(fs[i].key, prefix, maxDepth, depth), FixKeys(fs[i].value, prefix, maxDepth, depth + 1))
    decreases |fs|
  {
    if fs != [] {
      var k0 := NewKey(fs[0].key, prefix, maxDepth, depth);
      var v0 := FixKeys(fs[0].value, prefix, maxDepth, depth + 1);
      var acc' := Put(acc, k0, v0);
      FixFieldsEntries(acc', fs[1..], prefix, maxDepth, depth);
      PutEntries(acc, k0, v0);
      forall e | e in FixFields(acc, fs, prefix, maxDepth, depth)
        ensures e in acc || exists i | 0 <= i < |fs| ::
          e == Field(NewKey(fs[i].key, prefix, maxDepth, depth), FixKeys(fs[i].value, prefix, maxDepth, depth + 1))
      {
        if e in acc' {
          var j :| 0 <= j < |acc'| && acc'[j] == e;
          if e != Field(k0, v0) {
            assert e in acc;
          }
        } else {
          var i :| 0 <= i < |fs[1..]| &&
            e == Field(NewKey(fs[1..][i].key, prefix, maxDepth, depth), FixKeys(fs[1..][i].value, prefix, maxDepth, depth + 1));
          assert fs[1..][i] == fs[i + 1];
        }
      }
    }
  }

  /**
   * With no depth limit and a prefix that does not start with an underscore,
   * no key of the result starts with an underscore.
   */
  lemma {:induction false} NoUnderscoreLeft(data: Json, prefix: string, depth: int)
    requires prefix != [] && prefix[0] != '_'
    ensures NoUnderscore(FixKeys(data, prefix, None, depth))
    decreases data, 1
  {
    match data
    case Obj(fs) =>
      var r := FixFields([], fs, prefix, None, depth);
      FixFieldsEntries([], fs, prefix, None, depth);
      forall j | 0 <= j < |r| ensures !Underscored(r[j].key) && NoUnderscore(r[j].value) {
        assert r[j] in r;
        var i :| 0 <= i < |fs| && r[j] == Field(NewKey(fs[i].key, prefix, None, depth), FixKeys(fs[i].value, prefix, None, depth + 1));
        NoUnderscoreLeft(fs[i].value, prefix, depth + 1);
      }
    case Arr(es) =>
      var r := FixItems(es, prefix, None, depth);
      forall i | 0 <= i < |es| ensures NoUnderscore(r[i]) {
        FixItemsAt(es, prefix, None, depth, i);
        NoUnderscoreLeft(es[i], prefix, depth);
      }
    case _ =>
  }
}
