/**
 * The generic visitor walk `recursive_descent`. It has no state of its own:
 * the visitor is called on every node that is neither a dict nor a list,
 * with that node's dotted path, so the walk is modelled by the sequence of
 * (path, value) pairs the visitor receives, in call order. The visitor's
 * side effects belong to its callers (see Counter).
 */
module Recursor {
  import opened Strings
  import opened Json

  /** One visitor call: the dotted path and the scalar found there. */
  datatype Leaf = Leaf(path: string, value: Json)

  /** The visitor calls of `recursive_descent(item, path, visitor)`, in order. */
  function Leaves(item: Json, path: string): (r: seq<Leaf>)
    ensures forall i | 0 <= i < |r| :: IsScalar(r[i].value)
    ensures IsScalar(item) ==> r == [Leaf(path, item)]
    decreases item
  {
    match item
    case Obj(fs) => FieldLeaves(fs, path)
    case Arr(es) => ElemLeaves(es, ExtendPath(path, "*"))
    case _ => [Leaf(path, item)]
  }

  /** The calls for a dict's entries, each under `path.key` (`key` at the root). */
  function FieldLeaves(fs: seq<Field>, path: string): (r: seq<Leaf>)
    ensures forall i | 0 <= i < |r| :: IsScalar(r[i].value)
    decreases fs
  {
    if fs == [] then []
    else Leaves(fs[0].value, ExtendPath(path, fs[0].key)) + FieldLeaves(fs[1..], path)
  }

  /** The calls for a list's elements, all under the same `path` (already ending in `*`). */
  function ElemLeaves(es: seq<Json>, path: string): (r: seq<Leaf>)
    ensures forall i | 0 <= i < |r| :: IsScalar(r[i].value)
    decreases es
  {
    if es == [] then [] else Leaves(es[0], path) + ElemLeaves(es[1..], path)
  }

  /** The number of nodes of a tree that are neither dicts nor lists. */
  function ScalarCount(item: Json): nat
    decreases item
  {
    match item
    case Obj(fs) => FieldsScalarCount(fs)
    case Arr(es) => ElemsScalarCount(es)
    case _ => 1
  }

  function FieldsScalarCount(fs: seq<Field>): nat
    decreases fs
  {
    if fs == [] then 0 else ScalarCount(fs[0].value) + FieldsScalarCount(fs[1..])
  }

  function ElemsScalarCount(es: seq<Json>): nat
    decreases es
  {
    if es == [] then 0 else ScalarCount(es[0]) + ElemsScalarCount(es[1..])
  }

  /** The visitor is called exactly once per scalar node, whatever the root path. */
  lemma {:induction false} LeavesCount(item: Json, path: string)
    ensures |Leaves(item, path)| == ScalarCount(item)
    decreases item, 1
  {
    match item
    case Obj(fs) => FieldLeavesCount(fs, path);
    case Arr(es) => ElemLeavesCount(es, ExtendPath(path, "*"));
    case _ =>
  }

  lemma {:induction false} FieldLeavesCount(fs: seq<Field>, path: string)
    ensures |FieldLeaves(fs, path)| == FieldsScalarCount(fs)
    decreases fs, 0
  {
    if fs != [] {
      LeavesCount(fs[0].value, ExtendPath(path, fs[0].key));
      FieldLeavesCount(fs[1..], path);
    }
  }

  lemma {:induction false} ElemLeavesCount(es: seq<Json>, path: string)
    ensures |ElemLeaves(es, path)| == ElemsScalarCount(es)
    decreases es, 0
  {
    if es != [] {
      LeavesCount(es[0], path);
      ElemLeavesCount(es[1..], path);
    }
  }

  /** Below a non-empty path, every visited path extends it with a `.` and further segments. */
  lemma {:induction false} LeavesUnder(item: Json, path: string)
    requires path != ""
    ensures !IsScalar(item) ==> forall i | 0 <= i < |Leaves(item, path)| :: path + "." <= Leaves(item, path)[i].path
    decreases item, 1
  {
    match item
    case Obj(fs) => FieldLeavesUnder(fs, path);
    case Arr(es) =>
      var p := ExtendPath(path, "*");
      ElemLeavesUnder(es, p);
      forall i | 0 <= i < |Leaves(item, path)| ensures path + "." <= Leaves(item, path)[i].path {
        assert path + "." <= p;
      }
    case _ =>
  }

  lemma {:induction false} FieldLeavesUnder(fs: seq<Field>, path: string)
    requires path != ""
    ensures forall i | 0 <= i < |FieldLeaves(fs, path)| :: path + "." <= FieldLeaves(fs, path)[i].path
    decreases fs, 0
  {
    if fs != [] {
      var p := ExtendPath(path, fs[0].key);
      assert path + "." <= p;
      LeavesUnder(fs[0].value, p);
      FieldLeavesUnder(fs[1..], path);
      var head := Leaves(fs[0].value, p);
      forall i | 0 <= i < |head| ensures path + "." <= head[i].path {
        if IsScalar(fs[0].value) {
          assert head[i].path == p;
        } else {
          assert p + "." <= head[i].path;
        }
      }
    }
  }

  lemma {:induction false} ElemLeavesUnder(es: seq<Json>, path: string)
    requires path != ""
    ensures forall i | 0 <= i < |ElemLeaves(es, path)| :: path <= ElemLeaves(es, path)[i].path
    decreases es, 0
  {
    if es != [] {
      LeavesUnder(es[0], path);
      ElemLeavesUnder(es[1..], path);
      var head := Leaves(es[0], path);
      forall i | 0 <= i < |head| ensures path <= head[i].path {
        if !IsScalar(es[0]) {
          assert path + "." <= head[i].path;
        }
      }
    }
  }
}
