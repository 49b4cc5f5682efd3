/**
 * Small facts about sequences, stated once for every element type so that
 * the proofs that use them do not have to rediscover them in a context full
 * of definitions about the elements.
 */
module Seqs {

  lemma SplitFirst<T>(s: seq<T>)
    requires s != []
    ensures s == [s[0]] + s[1..]
  {
  }

  lemma SplitLast<T>(s: seq<T>)
    requires s != []
    ensures s == s[..|s| - 1] + [s[|s| - 1]]
  {
  }

  lemma ConsAppend<T>(s: seq<T>, x: T)
    requires s != []
    ensures [s[0]] + (s[1..] + [x]) == s + [x]
  {
    SplitFirst(s);
  }

  /** Dropping the first element of a concatenation drops it from the left part. */
  lemma AppendTail<T>(a: seq<T>, b: seq<T>)
    requires a != []
    ensures (a + b)[1..] == a[1..] + b
  {
  }

  /** Dropping the last element of a concatenation drops it from the right part. */
  lemma AppendInit<T>(a: seq<T>, b: seq<T>)
    requires b != []
    ensures (a + b)[..|a + b| - 1] == a + b[..|b| - 1]
    ensures (a + b)[|a + b| - 1] == b[|b| - 1]
  {
  }

  /** The prefixes of a loop over a sequence grow by one element at a time. */
  lemma PrefixStep<T>(s: seq<T>, i: nat)
    requires i < |s|
    ensures s[..i + 1] == s[..i] + [s[i]]
    ensures s[..i + 1][..i] == s[..i]
  {
  }

  /** An element of a concatenation is in one of its parts. */
  lemma InConcat<T>(a: seq<T>, b: seq<T>, x: T)
    requires x in a + b
    ensures x in a || x in b
  {
    var k :| 0 <= k < |a + b| && (a + b)[k] == x;
    if k >= |a| {
      assert b[k - |a|] == x;
    }
  }
}
