/**
 * Python's `sorted(keys, key=...)` over distinct strings. Every sort key the
 * analyzer uses is a strict total order on the strings it sorts, so the
 * sorted list of a set of strings is unique; `Sorted` names it and
 * `SortSet` computes it.
 */
module Sorting {

  /** A comparison: `less(a, b)` means `a` comes before `b`. */
  type Less = (string, string) -> bool

  ghost predicate StrictTotalOrder(less: Less) {
    (forall a: string :: !less(a, a))
    && (forall a: string, b: string, c: string :: less(a, b) && less(b, c) ==> less(a, c))
    && (forall a: string, b: string :: a != b ==> less(a, b) || less(b, a))
  }

  /** The elements of a sequence, as a set. */
  function Elems(s: seq<string>): set<string> {
    set x | x in s
  }

  /** Strictly increasing: every element comes before every later one. */
  predicate SortedBy(s: seq<string>, less: Less) {
    forall i, j | 0 <= i < j < |s| :: less(s[i], s[j])
  }

  /** Inserts `x` into a strictly sorted sequence that does not hold it. */
  function Insert(s: seq<string>, x: string, less: Less): (r: seq<string>)
    requires StrictTotalOrder(less)
    requires SortedBy(s, less) && x !in s
    ensures SortedBy(r, less)
    ensures Elems(r) == Elems(s) + {x} && |r| == |s| + 1
  {
    if s == [] then [x]
    else if less(x, s[0]) then [x] + s
    else
      var t := Insert(s[1..], x, less);
      assert Elems(s) == {s[0]} + Elems(s[1..]);
      assert forall k | 0 <= k < |t| :: t[k] in Elems(s[1..]) + {x};
      [s[0]] + t
  }

  /** The strings of `S` in increasing order: Python `sorted(S, key=...)`. */
  ghost function Sorted(S: set<string>, less: Less): (r: seq<string>)
    requires StrictTotalOrder(less)
    ensures SortedBy(r, less) && Elems(r) == S && |r| == |S|
    decreases S
  {
    if S == {} then []
    else
      var x :| x in S;
      Insert(Sorted(S - {x}, less), x, less)
  }

  /** A strictly sorted sequence is determined by its elements. */
  lemma {:induction false} SortedUnique(a: seq<string>, b: seq<string>, less: Less)
    requires StrictTotalOrder(less)
    requires SortedBy(a, less) && SortedBy(b, less) && Elems(a) == Elems(b)
    ensures a == b
  {
    if a != [] {
      assert a[0] in Elems(b);
      assert b != [];
      assert b[0] in Elems(a);
      assert a[0] == b[0] by {
        var i :| 0 <= i < |a| && a[i] == b[0];
        var j :| 0 <= j < |b| && b[j] == a[0];
        SortedFirst(a, i, less);
        SortedFirst(b, j, less);
      }
      assert Elems(a[1..]) == Elems(a) - {a[0]} by {
        assert a == [a[0]] + a[1..];
        forall k | 0 <= k < |a[1..]| ensures a[1..][k] != a[0] {
          assert less(a[0], a[k + 1]);
        }
      }
      assert Elems(b[1..]) == Elems(b) - {b[0]} by {
        assert b == [b[0]] + b[1..];
        forall k | 0 <= k < |b[1..]| ensures b[1..][k] != b[0] {
          assert less(b[0], b[k + 1]);
        }
      }
      SortedUnique(a[1..], b[1..], less);
      assert a == [a[0]] + a[1..] && b == [b[0]] + b[1..];
    } else {
      ElemsEmpty(b);
    }
  }

  lemma ElemsEmpty(s: seq<string>)
    ensures Elems(s) == {} <==> s == []
  {
    if s != [] {
      assert s[0] in Elems(s);
    }
  }

  lemma SortedFirst(s: seq<string>, k: int, less: Less)
    requires SortedBy(s, less) && 0 <= k < |s|
    ensures k == 0 || less(s[0], s[k])
  {
  }

  /** Any strictly sorted arrangement of `S` is `Sorted(S)`. */
  lemma SortedIsSorted(r: seq<string>, S: set<string>, less: Less)
    requires StrictTotalOrder(less)
    requires SortedBy(r, less) && Elems(r) == S
    ensures r == Sorted(S, less)
  {
    SortedUnique(r, Sorted(S, less), less);
  }

  /** The first element of a strictly sorted sequence comes before all others. */
  lemma SortedHead(S: set<string>, less: Less, q: string)
    requires StrictTotalOrder(less)
    requires q in S
    ensures Sorted(S, less) != []
    ensures q == Sorted(S, less)[0] || less(Sorted(S, less)[0], q)
  {
    var r := Sorted(S, less);
    assert q in Elems(r);
    var k :| 0 <= k < |r| && r[k] == q;
  }

  /** Sorts the distinct strings of `S`; stands for Python's built-in `sorted`. */
  method SortSet(S: set<string>, less: Less) returns (r: seq<string>)
    requires StrictTotalOrder(less)
    ensures r == Sorted(S, less)
  {
    r := [];
    var rest := S;
    while rest != {}
      invariant SortedBy(r, less)
      invariant Elems(r) + rest == S && Elems(r) !! rest
      decreases rest
    {
      var x :| x in rest;
      r := Insert(r, x, less);
      rest := rest - {x};
    }
    SortedIsSorted(r, S, less);
  }
}
