/**
 * `safe_nested_increment` and `flatten_nested_dict`. A dict is the ordered
 * sequence of its entries (see Json); the increment returns the updated
 * dict instead of changing it in place.
 */
module Helpers {
  import opened Wrappers
  import opened Strings
  import opened Json
  import Seqs

  /** `d[k1][k2]...[kn]`, following dicts only; `None` if a key is missing or a value on the way is not a dict. */
  function GetPath(d: seq<Field>, keys: seq<string>): Option<Json>
    requires |keys| >= 1
    decreases |keys|
  {
    match Get(d, keys[0])
    case None => None
    case Some(v) =>
      if |keys| == 1 then Some(v)
      else if v.Obj? then GetPath(v.fields, keys[1..])
      else None
  }

  /** The number `current.get(last_key, 0)` reads from what is stored: 0 when absent, a bool counts as 0 or 1. */
  function Number(stored: Option<Json>): int {
    match stored
    case Some(Num(n)) => n
    case Some(Bool(b)) => if b then 1 else 0
    case _ => 0
  }

  /** `+` with an int is defined on what is stored: nothing, a number or a bool. */
  predicate Addable(stored: Option<Json>) {
    stored.None? || stored.value.Num? || stored.value.Bool?
  }

  /** What `stored + v` gives when it is defined: the stored number plus `v`. */
  function Added(stored: Option<Json>, v: int): Json {
    Num(Number(stored) + v)
  }

  /** `+` is undefined on the value already stored at the end of the path. */
  predicate NotAddable(d: seq<Field>, keys: seq<string>)
    requires |keys| >= 1
  {
    !Addable(GetPath(d, keys))
  }

  /**
   * `safe_nested_increment(d, *keys, v=v)`: every key but the last is walked,
   * a missing or non-dict entry being replaced by `{}`; then the last entry
   * becomes its old value (0 if absent) plus `v`. No keys is an IndexError
   * (`keys[-1]`), and a last value that is not a number is a TypeError.
   */
  function Increment(d: seq<Field>, keys: seq<string>, v: int): (r: Result<seq<Field>>)
    decreases |keys|
  {
    if |keys| == 0 then Err(IndexError)
    else if |keys| == 1 then
      match AddTo(Get(d, keys[0]), v)
      case Ok(x) => Ok(Put(d, keys[0], x))
      case Err(e) => Err(e)
    else
      match Increment(ChildDict(d, keys[0]), keys[1..], v)
      case Ok(c) => Ok(Put(d, keys[0], Obj(c)))
      case Err(e) => Err(e)
  }

  /** `current.get(last_key, 0) + v`; anything but a number or a bool is a TypeError. */
  function AddTo(stored: Option<Json>, v: int): (r: Result<Json>)
    ensures r.Ok? <==> Addable(stored)
    ensures r.Ok? ==> r.value == Added(stored, v)
  {
    match stored
    case None => Ok(Num(v))
    case Some(Num(n)) => Ok(Num(n + v))
    case Some(Bool(b)) => Ok(Num((if b then 1 else 0) + v))
    case Some(_) => Err(TypeError("unsupported operand type(s) for +"))
  }

  /** The dict under `key` on the way down: the one already there, or a fresh `{}` replacing whatever else was. */
  function ChildDict(d: seq<Field>, key: string): seq<Field> {
    match Get(d, key)
    case Some(Obj(c)) => c
    case _ => []
  }

  /**
   * `safe_nested_increment` as the source runs it: the loop over `keys[:-1]`
   * moves `current` one dict down per key, a missing or non-dict entry being
   * replaced by `{}`, and the last key is then incremented in `current`.
   * Dicts are values here, so `dicts[i]` records the dict `current` is at
   * depth `i`, and the updated dicts are stored back into their parents from
   * the bottom up; in Python they are the same objects as the entries of `d`.
   */
  method SafeNestedIncrement(d: seq<Field>, keys: seq<string>, v: int) returns (r: Result<seq<Field>>)
    ensures r == Increment(d, keys, v)
  {
    if |keys| == 0 {
      return Err(IndexError);
    }
    var n := |keys|;
    var current := d;
    var dicts := [d];
    for i := 0 to n - 1
      invariant |dicts| == i + 1 && dicts[0] == d && current == dicts[i]
      invariant forall j | 0 <= j < i :: dicts[j + 1] == ChildDict(dicts[j], keys[j])
    {
      current := ChildDict(current, keys[i]);
      dicts := dicts + [current];
    }
    var lastKey := keys[n - 1];
    match AddTo(Get(current, lastKey), v) {
      case Err(e) =>
        IncrementFailsBelow(dicts, keys, v, 0, e);
        assert keys[0..] == keys;
        return Err(e);
      case Ok(x) =>
        var updated := Put(current, lastKey, x);
        var i := n - 1;
        while i > 0
          invariant 0 <= i <= n - 1
          invariant Increment(dicts[i], keys[i..], v) == Ok(updated)
        {
          i := i - 1;
          IncrementUnfold(dicts, keys, v, i);
          updated := Put(dicts[i], keys[i], Obj(updated));
        }
        assert keys[0..] == keys;
        return Ok(updated);
    }
  }

  /** One level of the walk: the increment from depth `i` goes through the dict at depth `i + 1`. */
  lemma IncrementUnfold(dicts: seq<seq<Field>>, keys: seq<string>, v: int, i: nat)
    requires i + 1 < |keys| && |dicts| == |keys| && dicts[i + 1] == ChildDict(dicts[i], keys[i])
    ensures Increment(dicts[i], keys[i..], v) ==
      match Increment(dicts[i + 1], keys[i + 1..], v)
      case Ok(c) => Ok(Put(dicts[i], keys[i], Obj(c)))
      case Err(e) => Err(e)
  {
    assert keys[i..][0] == keys[i] && keys[i..][1..] == keys[i + 1..];
  }

  /** A TypeError at the last key is the error of the whole increment, from every depth above it. */
  lemma {:induction false} IncrementFailsBelow(dicts: seq<seq<Field>>, keys: seq<string>, v: int, i: nat, e: Error)
    requires i < |keys| && |dicts| == |keys|
    requires forall j | 0 <= j < |keys| - 1 :: dicts[j + 1] == ChildDict(dicts[j], keys[j])
    requires AddTo(Get(dicts[|keys| - 1], keys[|keys| - 1]), v) == Err(e)
    ensures Increment(dicts[i], keys[i..], v) == Err(e)
    decreases |keys| - i
  {
    if i + 1 < |keys| {
      IncrementFailsBelow(dicts, keys, v, i + 1, e);
      IncrementUnfold(dicts, keys, v, i);
    } else {
      assert keys[i..] == [keys[i]];
    }
  }

  /** Below the first key, a path reads the same through the dict the walk goes down into. */
  lemma GetPathChild(d: seq<Field>, keys: seq<string>)
    requires |keys| >= 2
    ensures GetPath(d, keys) == GetPath(ChildDict(d, keys[0]), keys[1..])
  {
  }

  /** An increment fails exactly when there are no keys or the stored value cannot be added to. */
  lemma {:induction false} IncrementErr(d: seq<Field>, keys: seq<string>, v: int)
    ensures Increment(d, keys, v).Err? <==> |keys| == 0 || NotAddable(d, keys)
    decreases |keys|
  {
    if |keys| > 1 {
      IncrementErr(ChildDict(d, keys[0]), keys[1..], v);
      GetPathChild(d, keys);
    }
  }

  /** After a successful increment, the value at the path is its prior value plus `v`. */
  lemma {:induction false} IncrementAdds(d: seq<Field>, keys: seq<string>, v: int)
    requires Increment(d, keys, v).Ok?
    ensures |keys| >= 1
    ensures GetPath(Increment(d, keys, v).value, keys) == Some(Added(GetPath(d, keys), v))
    decreases |keys|
  {
    var k := keys[0];
    if |keys| > 1 {
      IncrementStep(d, keys, v);
      var child := ChildDict(d, k);
      var rc := Increment(child, keys[1..], v).value;
      IncrementAdds(child, keys[1..], v);
      AddedThrough(d, keys, v, rc);
    } else {
      IncrementLast(d, keys, v);
    }
  }

  /** At the last key, a successful increment stores the sum there. */
  lemma IncrementLast(d: seq<Field>, keys: seq<string>, v: int)
    requires |keys| == 1 && Increment(d, keys, v).Ok?
    ensures GetPath(Increment(d, keys, v).value, keys) == Some(Added(GetPath(d, keys), v))
  {
    var k := keys[0];
    var x := AddTo(Get(d, k), v).value;
    assert x == Added(Get(d, k), v);
    assert Increment(d, keys, v).value == Put(d, k, x);
    GetPathOne(d, keys);
    GetPathOne(Put(d, k, x), keys);
    assert Get(Put(d, k, x), k) == Some(x);
  }

  /** A path of one key is a plain lookup. */
  lemma GetPathOne(d: seq<Field>, keys: seq<string>)
    requires |keys| == 1
    ensures GetPath(d, keys) == Get(d, keys[0])
  {
  }

  /** Above the last key, a successful increment stores the child dict's increment under the first key. */
  lemma IncrementStep(d: seq<Field>, keys: seq<string>, v: int)
    requires |keys| > 1 && Increment(d, keys, v).Ok?
    ensures Increment(ChildDict(d, keys[0]), keys[1..], v).Ok?
    ensures Increment(d, keys, v).value == Put(d, keys[0], Obj(Increment(ChildDict(d, keys[0]), keys[1..], v).value))
  {
  }

  /** One level of `IncrementAdds`: the sum stored in the child dict is the sum seen from the parent. */
  lemma AddedThrough(d: seq<Field>, keys: seq<string>, v: int, rc: seq<Field>)
    requires |keys| >= 2
    requires GetPath(rc, keys[1..]) == Some(Added(GetPath(ChildDict(d, keys[0]), keys[1..]), v))
    ensures GetPath(Put(d, keys[0], Obj(rc)), keys) == Some(Added(GetPath(d, keys), v))
  {
    GetPathPutDict(d, keys[0], rc, keys);
    GetPathChild(d, keys);
  }

  /** After an increment, every proper prefix of the path leads to a dict: missing and non-dict entries became `{}`. */
  lemma {:induction false} IncrementMakesDicts(d: seq<Field>, keys: seq<string>, v: int, j: nat)
    requires Increment(d, keys, v).Ok?
    requires 1 <= j < |keys|
    ensures GetPath(Increment(d, keys, v).value, keys[..j]).Some?
    ensures GetPath(Increment(d, keys, v).value, keys[..j]).value.Obj?
    decreases |keys|
  {
    var child := ChildDict(d, keys[0]);
    var rc := Increment(child, keys[1..], v).value;
    assert Increment(d, keys, v).value == Put(d, keys[0], Obj(rc));
    if j > 1 {
      IncrementMakesDicts(child, keys[1..], v, j - 1);
      assert keys[..j][1..] == keys[1..][..j - 1];
      GetPathPutDict(d, keys[0], rc, keys[..j]);
    }
  }

  /** Paths that part ways with `keys` before either ends: Python's siblings. */
  predicate Diverge(keys: seq<string>, other: seq<string>) {
    exists i | 0 <= i < |keys| && i < |other| :: keys[i] != other[i]
  }

  /** An increment changes nothing reachable by a path that parts ways with its own. */
  lemma {:induction false} IncrementSiblings(d: seq<Field>, keys: seq<string>, v: int, other: seq<string>)
    requires Increment(d, keys, v).Ok?
    requires |other| >= 1 && Diverge(keys, other)
    ensures GetPath(Increment(d, keys, v).value, other) == GetPath(d, other)
    decreases |keys|
  {
    var k := keys[0];
    var i :| 0 <= i < |keys| && i < |other| && keys[i] != other[i];
    var r := Increment(d, keys, v).value;
    if other[0] != k {
      IncrementIsPut(d, keys, v);
      var x :| r == Put(d, k, x);
      GetPathPutOther(d, k, x, other);
    } else {
      assert i > 0;
      var child := ChildDict(d, k);
      var rc := Increment(child, keys[1..], v).value;
      assert r == Put(d, k, Obj(rc));
      assert keys[1..][i - 1] != other[1..][i - 1];
      IncrementSiblings(child, keys[1..], v, other[1..]);
      UnchangedThrough(d, k, rc, other);
    }
  }

  /** One level of `IncrementSiblings`: a child dict that reads the same below makes the parent read the same. */
  lemma UnchangedThrough(d: seq<Field>, k: string, rc: seq<Field>, other: seq<string>)
    requires |other| >= 2 && other[0] == k
    requires GetPath(rc, other[1..]) == GetPath(ChildDict(d, k), other[1..])
    ensures GetPath(Put(d, k, Obj(rc)), other) == GetPath(d, other)
  {
    GetPathPutDict(d, k, rc, other);
    GetPathChild(d, other);
  }

  /** A successful increment stores one value under its first key. */
  lemma IncrementIsPut(d: seq<Field>, keys: seq<string>, v: int)
    requires Increment(d, keys, v).Ok?
    ensures |keys| >= 1
    ensures exists x :: Increment(d, keys, v).value == Put(d, keys[0], x)
  {
    if |keys| > 1 {
      var rc := Increment(ChildDict(d, keys[0]), keys[1..], v).value;
      assert Increment(d, keys, v).value == Put(d, keys[0], Obj(rc));
    } else {
      assert Increment(d, keys, v).value == Put(d, keys[0], AddTo(Get(d, keys[0]), v).value);
    }
  }

  lemma GetPathPutOther(d: seq<Field>, k: string, x: Json, other: seq<string>)
    requires |other| >= 1 && other[0] != k
    ensures GetPath(Put(d, k, x), other) == GetPath(d, other)
  {
    PutOther(d, k, x, other[0]);
  }

  lemma GetPathPutDict(d: seq<Field>, k: string, c: seq<Field>, other: seq<string>)
    requires |other| >= 2 && other[0] == k
    ensures GetPath(Put(d, k, Obj(c)), other) == GetPath(c, other[1..])
  {
  }

  // ---------------------------------------------------------------------------
  // flatten_nested_dict

  /** `flat.update(other)`: each entry of `other` in turn, as `flat[k] = v`. */
  function Update(flat: seq<Field>, other: seq<Field>): seq<Field>
    decreases |other|
  {
    if other == [] then flat
    else Update(Put(flat, other[0].key, other[0].value), other[1..])
  }

  /** `flatten_nested_dict(d, prefix)`. */
  function Flatten(fs: seq<Field>, prefix: string): seq<Field>
    decreases fs, 1
  {
    FlattenInto([], fs, prefix)
  }

  /** The loop of `flatten_nested_dict` from the dict `flat` built so far. */
  function FlattenInto(flat: seq<Field>, fs: seq<Field>, prefix: string): seq<Field>
    decreases fs, 0
  {
    if fs == [] then flat
    else FlattenInto(FlattenEntry(flat, fs[0], prefix), fs[1..], prefix)
  }

  /** The non-dict values of a nested dict under their joined keys, depth first. */
  function DictLeaves(fs: seq<Field>, prefix: string): seq<Field>
    decreases fs
  {
    if fs == [] then [] else EntryLeaves(fs[0], prefix) + DictLeaves(fs[1..], prefix)
  }

  /** The value of the last entry for `k` in a list of entries. */
  function LastValue(entries: seq<Field>, k: string): Option<Json>
    decreases |entries|
  {
    if entries == [] then None
    else if entries[|entries| - 1].key == k then Some(entries[|entries| - 1].value)
    else LastValue(entries[..|entries| - 1], k)
  }

  lemma {:induction false} LastValueAppend(a: seq<Field>, b: seq<Field>, k: string)
    ensures LastValue(a + b, k) == if LastValue(b, k).Some? then LastValue(b, k) else LastValue(a, k)
    decreases |b|
  {
    if b != [] {
      assert (a + b)[..|a + b| - 1] == a + b[..|b| - 1];
      LastValueAppend(a, b[..|b| - 1], k);
    } else {
      assert a + b == a;
    }
  }

  /** After `flat.update(other)`, a key holds its last value in `other`, or else its old value. */
  lemma {:induction false} UpdateGet(flat: seq<Field>, other: seq<Field>, k: string)
    ensures Get(Update(flat, other), k) == if LastValue(other, k).Some? then LastValue(other, k) else Get(flat, k)
    decreases |other|
  {
    if other != [] {
      var o := other[0];
      var p := Put(flat, o.key, o.value);
      assert Update(flat, other) == Update(p, other[1..]);
      UpdateGet(p, other[1..], k);
      assert Get(p, k) == if o.key == k then Some(o.value) else Get(flat, k) by {
        if o.key != k {
          PutOther(flat, o.key, o.value, k);
        }
      }
      LastValueAppend([o], other[1..], k);
      Seqs.SplitFirst(other);
      assert LastValue([o], k) == if o.key == k then Some(o.value) else None by {
        assert [o][..0] == [];
      }
    }
  }

  /**
   * Flattening writes the leaves in order, later ones overwriting earlier ones:
   * every joined key holds the value of its last leaf, and no other key is
   * present. An empty nested dict has no leaves and so gives no entry.
   */
  lemma {:induction false} FlattenGet(fs: seq<Field>, prefix: string, k: string)
    ensures Get(Flatten(fs, prefix), k) == LastValue(DictLeaves(fs, prefix), k)
    decreases fs, 1
  {
    FlattenIntoGet([], fs, prefix, k);
    UpdateGet([], DictLeaves(fs, prefix), k);
  }

  lemma {:induction false} FlattenIntoGet(flat: seq<Field>, fs: seq<Field>, prefix: string, k: string)
    ensures Get(FlattenInto(flat, fs, prefix), k) == Get(Update(flat, DictLeaves(fs, prefix)), k)
    decreases fs, 0
  {
    if fs != [] {
      var full := ExtendPath(prefix, fs[0].key);
      var head := EntryLeaves(fs[0], prefix);
      var tail := DictLeaves(fs[1..], prefix);
      var next := FlattenEntry(flat, fs[0], prefix);
      assert FlattenInto(flat, fs, prefix) == FlattenInto(next, fs[1..], prefix);
      assert DictLeaves(fs, prefix) == head + tail;
      FlattenIntoGet(next, fs[1..], prefix, k);
      UpdateGet(next, tail, k);
      FlattenEntryGet(flat, fs[0], prefix, k);
      UpdateGet(flat, head + tail, k);
      LastValueAppend(head, tail, k);
    }
  }

  /** The leaves one dict entry contributes. */
  function EntryLeaves(f: Field, prefix: string): seq<Field>
    decreases f, 1
  {
    var full := ExtendPath(prefix, f.key);
    if f.value.Obj? then DictLeaves(f.value.fields, full) else [Field(full, f.value)]
  }

  /** One iteration of the loop of `flatten_nested_dict`. */
  function FlattenEntry(flat: seq<Field>, f: Field, prefix: string): seq<Field>
    decreases f, 1
  {
    var full := ExtendPath(prefix, f.key);
    if f.value.Obj? then Update(flat, Flatten(f.value.fields, full)) else Put(flat, full, f.value)
  }

  lemma {:induction false} FlattenEntryGet(flat: seq<Field>, f: Field, prefix: string, k: string)
    ensures Get(FlattenEntry(flat, f, prefix), k)
            == if LastValue(EntryLeaves(f, prefix), k).Some? then LastValue(EntryLeaves(f, prefix), k) else Get(flat, k)
    decreases f, 0
  {
    var full := ExtendPath(prefix, f.key);
    if f.value.Obj? {
      var sub := Flatten(f.value.fields, full);
      UpdateGet(flat, sub, k);
      FlattenUnique(f.value.fields, full);
      LastValueOfDict(sub, k);
      FlattenGet(f.value.fields, full, k);
    } else {
      var head := [Field(full, f.value)];
      assert head[..0] == [];
      if full != k {
        PutOther(flat, full, f.value, k);
      }
    }
  }

  /** In a dict with distinct keys, the last entry for a key is its only one. */
  lemma {:induction false} LastValueOfDict(fs: seq<Field>, k: string)
    requires UniqueKeys(fs)
    ensures LastValue(fs, k) == Get(fs, k)
    decreases |fs|
  {
    if fs != [] {
      var init := fs[..|fs| - 1];
      var last := fs[|fs| - 1];
      UniqueInit(fs);
      LastValueOfDict(init, k);
      Seqs.SplitLast(fs);
      GetAppend(init, last, k);
    }
  }

  lemma {:induction false} UpdateUnique(flat: seq<Field>, other: seq<Field>)
    requires UniqueKeys(flat)
    ensures UniqueKeys(Update(flat, other))
    decreases |other|
  {
    if other != [] {
      PutUnique(flat, other[0].key, other[0].value);
      UpdateUnique(Put(flat, other[0].key, other[0].value), other[1..]);
    }
  }

  /** A flattened dict is a dict: its keys are distinct. */
  lemma {:induction false} FlattenUnique(fs: seq<Field>, prefix: string)
    ensures UniqueKeys(Flatten(fs, prefix))
    decreases fs, 1
  {
    FlattenIntoUnique([], fs, prefix);
  }

  lemma {:induction false} FlattenIntoUnique(flat: seq<Field>, fs: seq<Field>, prefix: string)
    requires UniqueKeys(flat)
    ensures UniqueKeys(FlattenInto(flat, fs, prefix))
    decreases fs, 0
  {
    if fs != [] {
      var f := fs[0];
      var full := ExtendPath(prefix, f.key);
      if f.value.Obj? {
        FlattenUnique(f.value.fields, full);
        UpdateUnique(flat, Flatten(f.value.fields, full));
      } else {
        PutUnique(flat, full, f.value);
      }
      FlattenIntoUnique(FlattenEntry(flat, f, prefix), fs[1..], prefix);
    }
  }

  /** A dict's entries have distinct keys, so the last entry for a key is its value. */
  lemma {:induction false} LastValueGet(fs: seq<Field>, k: string)
    ensures LastValue(fs, k).Some? ==> Get(fs, k).Some?
    ensures Get(fs, k).Some? && LastValue(fs, k).None? ==> false
    decreases |fs|
  {
    if fs != [] {
      LastValueGet(fs[..|fs| - 1], k);
      assert fs == fs[..|fs| - 1] + [fs[|fs| - 1]];
      GetAppend(fs[..|fs| - 1], fs[|fs| - 1], k);
    }
  }

  lemma {:induction false} GetAppend(fs: seq<Field>, f: Field, k: string)
    ensures Get(fs + [f], k) == if Get(fs, k).Some? then Get(fs, k) else if f.key == k then Some(f.value) else None
  {
    if fs != [] {
      GetAppend(fs[1..], f, k);
      assert (fs + [f])[1..] == fs[1..] + [f];
    }
  }
}
