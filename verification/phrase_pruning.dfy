/**
 * The three sub-phrase pruning strategies. Each is a greedy pass over the
 * phrases ranked by (word count descending, text ascending): a phrase is
 * kept unless it is ineligible or some phrase kept before it blocks it.
 * `Greedy` defines that pass once; the strategies differ in what they rank
 * (all phrases, or the phrases of one ID), in what is eligible and in what
 * blocks.
 */
module PhrasePruning {
  import opened Strings
  import opened Sorting

  /** Phrase -> the set of record IDs (tinyIds) it was found in. */
  type PhraseMap = map<string, set<string>>

  /** The sort key `(-len(p.split()), p)` as a comparison: more words first, then code-point order. */
  predicate RankBefore(p: string, q: string) {
    WordCount(p) > WordCount(q) || (WordCount(p) == WordCount(q) && LexLess(p, q))
  }

  lemma RankBeforeOrder()
    ensures StrictTotalOrder(RankBefore)
  {
    forall a: string ensures !RankBefore(a, a) {
      LexIrreflexive(a);
    }
    forall a: string, b: string, c: string | RankBefore(a, b) && RankBefore(b, c)
      ensures RankBefore(a, c)
    {
      if WordCount(a) == WordCount(b) == WordCount(c) {
        LexTransitive(a, b, c);
      }
    }
    forall a: string, b: string | a != b ensures RankBefore(a, b) || RankBefore(b, a) {
      LexTotal(a, b);
    }
  }

  /** The phrases of `S` in rank order. */
  ghost function Ranked(S: set<string>): (r: seq<string>)
    ensures SortedBy(r, RankBefore) && Elems(r) == S && |r| == |S|
  {
    RankBeforeOrder();
    Sorted(S, RankBefore)
  }

  /** `sorted(phrases, key=lambda p: (-len(p.split()), p))`. */
  method RankPhrases(S: set<string>) returns (r: seq<string>)
    ensures r == Ranked(S)
  {
    RankBeforeOrder();
    r := SortSet(S, RankBefore);
  }

  // ---------------------------------------------------------------------------
  // The greedy pass

  /**
   * The phrases a greedy pass over `order` keeps: each phrase in turn is kept
   * when it is eligible and no phrase kept so far blocks it.
   */
  function Greedy(order: seq<string>, eligible: string -> bool, blocks: (string, string) -> bool): (kept: set<string>)
    ensures kept <= Elems(order)
    ensures forall p | p in kept :: eligible(p)
    decreases |order|
  {
    if order == [] then {}
    else
      var init := order[..|order| - 1];
      var p := order[|order| - 1];
      var kept := Greedy(init, eligible, blocks);
      assert Elems(order) == Elems(init) + {p};
      if !eligible(p) || exists q | q in kept :: blocks(p, q) then kept else kept + {p}
  }

  /** Every phrase is eligible for the per-ID and global passes. */
  predicate AnyPhrase(p: string) {
    true
  }

  /**
   * `X` is a set of kept phrases consistent with the greedy rule: a phrase of
   * `S` is in `X` exactly when it is eligible and no phrase of `X` ranked
   * before it blocks it.
   */
  ghost predicate GreedyFixpoint(X: set<string>, S: set<string>, less: Less,
                                 eligible: string -> bool, blocks: (string, string) -> bool)
  {
    X <= S
    && forall p | p in S :: (p in X <==> eligible(p) && !exists q | q in X :: less(q, p) && blocks(p, q))
  }

  /** In a strictly sorted sequence, the elements before position `k` are those ranked before it. */
  lemma InPrefix(order: seq<string>, less: Less, k: int, q: string)
    requires StrictTotalOrder(less) && SortedBy(order, less)
    requires 0 <= k < |order| && q in Elems(order)
    ensures q in Elems(order[..k]) <==> less(q, order[k])
  {
    var j :| 0 <= j < |order| && order[j] == q;
    if j < k {
      assert order[..k][j] == q;
    } else if j > k {
      assert less(order[k], q);
    }
  }

  /** What the pass keeps among the first `k` phrases does not depend on the phrases after them. */
  lemma {:induction false} GreedyPrefix(order: seq<string>, less: Less, eligible: string -> bool,
                                        blocks: (string, string) -> bool, k: nat)
    requires StrictTotalOrder(less) && SortedBy(order, less) && k <= |order|
    ensures Greedy(order, eligible, blocks) * Elems(order[..k]) == Greedy(order[..k], eligible, blocks)
    decreases |order|
  {
    if k == |order| {
      assert order[..k] == order;
    } else {
      var init := order[..|order| - 1];
      var last := order[|order| - 1];
      assert SortedBy(init, less);
      GreedyPrefix(init, less, eligible, blocks, k);
      assert init[..k] == order[..k];
      assert last !in Elems(order[..k]) by {
        InPrefix(order, less, k, last);
        if k > 0 {
          assert less(order[k], last) || order[k] == last;
        }
      }
    }
  }

  /** The greedy pass over a strictly sorted sequence keeps a set consistent with its rule. */
  lemma GreedyIsFixpoint(order: seq<string>, less: Less, eligible: string -> bool, blocks: (string, string) -> bool)
    requires StrictTotalOrder(less) && SortedBy(order, less)
    ensures GreedyFixpoint(Greedy(order, eligible, blocks), Elems(order), less, eligible, blocks)
  {
    var G := Greedy(order, eligible, blocks);
    forall p | p in Elems(order)
      ensures p in G <==> eligible(p) && !exists q | q in G :: less(q, p) && blocks(p, q)
    {
      var k :| 0 <= k < |order| && order[k] == p;
      GreedyAt(order, less, eligible, blocks, k);
    }
  }

  /** The decision the pass makes about `order[k]`, in terms of everything it keeps. */
  lemma GreedyAt(order: seq<string>, less: Less, eligible: string -> bool, blocks: (string, string) -> bool, k: int)
    requires StrictTotalOrder(less) && SortedBy(order, less) && 0 <= k < |order|
    ensures var G := Greedy(order, eligible, blocks);
            order[k] in G <==> eligible(order[k]) && !exists q | q in G :: less(q, order[k]) && blocks(order[k], q)
  {
    var p := order[k];
    var G := Greedy(order, eligible, blocks);
    GreedyPrefix(order, less, eligible, blocks, k + 1);
    GreedyPrefix(order, less, eligible, blocks, k);
    var before := Greedy(order[..k], eligible, blocks);
    GreedyStep(order, k, eligible, blocks, before);
    assert p in Elems(order[..k + 1]);
    assert p !in before by {
      InPrefix(order, less, k, p);
    }
    forall q | q in G ensures q in before <==> less(q, p) {
      InPrefix(order, less, k, q);
    }
    var blockedBefore := exists q | q in before :: blocks(p, q);
    var blockedAll := exists q | q in G :: less(q, p) && blocks(p, q);
    assert blockedBefore <==> blockedAll;
    assert p in G <==> p in Greedy(order[..k + 1], eligible, blocks);
  }

  /** The kept set is the only set consistent with the greedy rule. */
  lemma FixpointUnique(order: seq<string>, less: Less, eligible: string -> bool,
                       blocks: (string, string) -> bool, X: set<string>)
    requires StrictTotalOrder(less) && SortedBy(order, less)
    requires GreedyFixpoint(X, Elems(order), less, eligible, blocks)
    ensures X == Greedy(order, eligible, blocks)
  {
    FixpointPrefix(order, less, eligible, blocks, X, |order|);
    assert order[..|order|] == order;
  }

  lemma {:induction false} FixpointPrefix(order: seq<string>, less: Less, eligible: string -> bool,
                                          blocks: (string, string) -> bool, X: set<string>, k: nat)
    requires StrictTotalOrder(less) && SortedBy(order, less)
    requires GreedyFixpoint(X, Elems(order), less, eligible, blocks)
    requires k <= |order|
    ensures X * Elems(order[..k]) == Greedy(order[..k], eligible, blocks)
  {
    if k == 0 {
      var none := order[..0];
      assert none == [];
      assert Elems(none) == {} && Greedy(none, eligible, blocks) == {};
    } else {
      FixpointPrefix(order, less, eligible, blocks, X, k - 1);
      FixpointStep(order, less, eligible, blocks, X, k - 1);
    }
  }

  /** One more phrase: the fixpoint and the pass make the same decision about `order[j]`. */
  lemma FixpointStep(order: seq<string>, less: Less, eligible: string -> bool,
                     blocks: (string, string) -> bool, X: set<string>, j: nat)
    requires StrictTotalOrder(less) && SortedBy(order, less)
    requires GreedyFixpoint(X, Elems(order), less, eligible, blocks)
    requires j < |order|
    requires X * Elems(order[..j]) == Greedy(order[..j], eligible, blocks)
    ensures X * Elems(order[..j + 1]) == Greedy(order[..j + 1], eligible, blocks)
  {
    var p := order[j];
    var before := Greedy(order[..j], eligible, blocks);
    GreedyStep(order, j, eligible, blocks, before);
    assert Elems(order[..j + 1]) == Elems(order[..j]) + {p};
    forall q | q in X ensures q in before <==> less(q, p) {
      InPrefix(order, less, j, q);
    }
    assert p in Elems(order);
    var blocked := exists q | q in before :: blocks(p, q);
    assert (exists q | q in X :: less(q, p) && blocks(p, q)) <==> blocked;
    assert (p in X) <==> eligible(p) && !blocked;
  }

  /** An eligible phrase ranked first is always kept. */
  lemma GreedyKeepsFirst(order: seq<string>, less: Less, eligible: string -> bool, blocks: (string, string) -> bool)
    requires StrictTotalOrder(less) && SortedBy(order, less)
    requires order != [] && eligible(order[0])
    ensures order[0] in Greedy(order, eligible, blocks)
  {
    GreedyPrefix(order, less, eligible, blocks, 1);
    assert order[..1][..0] == [];
    assert order[0] in Elems(order[..1]);
  }

  /**
   * The loop `for p in sorted_phrases: if not any(p in longer and p != longer
   * for longer in kept): kept.add(p)` shared by the per-ID and global passes.
   */
  method KeepLongest(order: seq<string>) returns (kept: set<string>)
    ensures kept == Greedy(order, AnyPhrase, IsProperSubstring)
  {
    kept := {};
    var i := 0;
    while i < |order|
      invariant 0 <= i <= |order|
      invariant kept == Greedy(order[..i], AnyPhrase, IsProperSubstring)
    {
      var p := order[i];
      if !exists longer | longer in kept :: IsProperSubstring(p, longer) {
        kept := kept + {p};
      }
      assert order[..i + 1][..i] == order[..i];
      i := i + 1;
    }
    assert order[..i] == order;
  }

  // ---------------------------------------------------------------------------
  // prune_subphrases_global

  /** The phrases global pruning keeps. */
  ghost function GlobalKept(m: PhraseMap): (kept: set<string>)
    ensures kept <= m.Keys
  {
    Greedy(Ranked(m.Keys), AnyPhrase, IsProperSubstring)
  }

  /** `prune_subphrases_global(m)`: the kept phrases with their ID sets unchanged. */
  ghost function PruneGlobalSpec(m: PhraseMap): (r: PhraseMap)
    ensures r.Keys <= m.Keys
    ensures forall p | p in r :: r[p] == m[p]
  {
    map p | p in GlobalKept(m) :: m[p]
  }

  method PruneGlobal(m: PhraseMap) returns (r: PhraseMap)
    ensures r == PruneGlobalSpec(m)
  {
    var sorted := RankPhrases(m.Keys);
    var kept := KeepLongest(sorted);
    r := map p | p in kept :: m[p];
  }

  /** The top-ranked phrase (most words, then first in code-point order) is always kept. */
  lemma GlobalKeepsTop(m: PhraseMap, top: string)
    requires top in m
    requires forall q | q in m :: q == top || RankBefore(top, q)
    ensures top in PruneGlobalSpec(m)
  {
    var order := Ranked(m.Keys);
    RankBeforeOrder();
    assert top in Elems(order);
    var k :| 0 <= k < |order| && order[k] == top;
    SortedFirst(order, k, RankBefore);
    assert order[0] in m;
    GreedyKeepsFirst(order, RankBefore, AnyPhrase, IsProperSubstring);
  }

  /**
   * A phrase is dropped by global pruning exactly when it is a proper
   * substring of a kept phrase ranked before it.
   */
  lemma GlobalDroppedIff(m: PhraseMap, p: string)
    requires p in m
    ensures p !in PruneGlobalSpec(m) <==>
              exists q | q in PruneGlobalSpec(m) :: RankBefore(q, p) && IsProperSubstring(p, q)
  {
    RankBeforeOrder();
    GreedyIsFixpoint(Ranked(m.Keys), RankBefore, AnyPhrase, IsProperSubstring);
  }

  /** Pruning the result of global pruning again changes nothing. */
  lemma GlobalIdempotent(m: PhraseMap)
    ensures PruneGlobalSpec(PruneGlobalSpec(m)) == PruneGlobalSpec(m)
  {
    var r := PruneGlobalSpec(m);
    var G := GlobalKept(m);
    assert r.Keys == G;
    GlobalKeptStable(m);
    assert GlobalKept(r) == G;
    var r2 := PruneGlobalSpec(r);
    assert r2.Keys == G;
    SameEntries(r2, r);
  }

  /** The kept phrases, ranked and pruned again, are all kept. */
  lemma GlobalKeptStable(m: PhraseMap)
    ensures Greedy(Ranked(GlobalKept(m)), AnyPhrase, IsProperSubstring) == GlobalKept(m)
  {
    RankBeforeOrder();
    var G := GlobalKept(m);
    GreedyIsFixpoint(Ranked(m.Keys), RankBefore, AnyPhrase, IsProperSubstring);
    forall p | p in G ensures !exists q | q in G :: RankBefore(q, p) && IsProperSubstring(p, q) {
      assert p in Elems(Ranked(m.Keys));
    }
    FixpointUnique(Ranked(G), RankBefore, AnyPhrase, IsProperSubstring, G);
  }

  // ---------------------------------------------------------------------------
  // prune_subphrases_threshold

  /** The IDs of a phrase; none for a phrase that is not in the map. */
  function IdsOf(m: PhraseMap, p: string): set<string> {
    if p in m then m[p] else {}
  }

  /** The threshold pass's blocking test: `phrase in longer_phrase and retained[longer_phrase] >= ids`. */
  function Subsumes(m: PhraseMap): (string, string) -> bool {
    (p: string, q: string) => IsSubstring(p, q) && IdsOf(m, q) >= IdsOf(m, p)
  }

  /** `len(ids) >= min_ids and len(phrase.split()) >= min_words`. */
  function MeetsThresholds(m: PhraseMap, minIds: int, minWords: int): string -> bool {
    (p: string) => |IdsOf(m, p)| >= minIds && WordCount(p) >= minWords
  }

  ghost function ThresholdKept(m: PhraseMap, minIds: int, minWords: int): (kept: set<string>)
    ensures kept <= m.Keys
  {
    Greedy(Ranked(m.Keys), MeetsThresholds(m, minIds, minWords), Subsumes(m))
  }

  /** `prune_subphrases_threshold(m, min_ids, min_words)`. */
  ghost function PruneThresholdSpec(m: PhraseMap, minIds: int, minWords: int): (r: PhraseMap)
    ensures r.Keys <= m.Keys
    ensures forall p | p in r :: r[p] == m[p]
    ensures forall p | p in r :: |r[p]| >= minIds && WordCount(p) >= minWords
  {
    var kept := ThresholdKept(m, minIds, minWords);
    assert forall p | p in kept :: MeetsThresholds(m, minIds, minWords)(p);
    map p | p in kept :: m[p]
  }

  method PruneThreshold(m: PhraseMap, minIds: int, minWords: int) returns (retained: PhraseMap)
    ensures retained == PruneThresholdSpec(m, minIds, minWords)
  {
    var sorted := RankPhrases(m.Keys);
    retained := map[];
    var i := 0;
    while i < |sorted|
      invariant 0 <= i <= |sorted|
      invariant retained.Keys == Greedy(sorted[..i], MeetsThresholds(m, minIds, minWords), Subsumes(m))
      invariant forall p | p in retained :: p in m && retained[p] == m[p]
    {
      var phrase := sorted[i];
      assert phrase in Elems(sorted);
      var ids := m[phrase];
      ghost var before := retained;
      var added := false;
      // A phrase below either threshold is skipped (`continue`).
      if |ids| >= minIds && WordCount(phrase) >= minWords {
        var subsumed := Subsumed(phrase, ids, retained);
        if !subsumed {
          retained := retained[phrase := ids];
          added := true;
        }
      }
      ThresholdStep(m, minIds, minWords, sorted, i, before, added, retained);
      i := i + 1;
    }
    assert sorted[..i] == sorted;
    ThresholdResult(m, minIds, minWords, retained);
  }

  lemma ThresholdResult(m: PhraseMap, minIds: int, minWords: int, retained: PhraseMap)
    requires retained.Keys == ThresholdKept(m, minIds, minWords)
    requires forall p | p in retained :: p in m && retained[p] == m[p]
    ensures retained == PruneThresholdSpec(m, minIds, minWords)
  {
    var r := PruneThresholdSpec(m, minIds, minWords);
    SameEntries(retained, r);
  }

  /** One step of the threshold pass, in the terms its loop decides it. */
  lemma ThresholdStep(m: PhraseMap, minIds: int, minWords: int, sorted: seq<string>, i: int,
                      retained: PhraseMap, added: bool, after: PhraseMap)
    requires 0 <= i < |sorted| && sorted[i] in m
    requires retained.Keys == Greedy(sorted[..i], MeetsThresholds(m, minIds, minWords), Subsumes(m))
    requires forall p | p in retained :: p in m && retained[p] == m[p]
    requires added <==> |m[sorted[i]]| >= minIds && WordCount(sorted[i]) >= minWords
                        && !Inside(sorted[i], m[sorted[i]], retained)
    requires after == if added then retained[sorted[i] := m[sorted[i]]] else retained
    ensures after.Keys == Greedy(sorted[..i + 1], MeetsThresholds(m, minIds, minWords), Subsumes(m))
    ensures forall p | p in after :: p in m && after[p] == m[p]
  {
    var phrase := sorted[i];
    var eligible := MeetsThresholds(m, minIds, minWords);
    var blocks := Subsumes(m);
    var K := retained.Keys;
    GreedyStep(sorted, i, eligible, blocks, K);
    ThresholdEligible(m, minIds, minWords, phrase);
    ThresholdBlocked(m, retained, phrase);
    var g := Greedy(sorted[..i + 1], eligible, blocks);
    var e := eligible(phrase);
    var blocked := exists q | q in K :: blocks(phrase, q);
    assert g == if !e || blocked then K else K + {phrase};
    assert added == (e && !blocked);
    StepKeys(m, retained, phrase, added, after, g);
  }

  /** The retained map after one step has the phrases the greedy step keeps, with their IDs from `m`. */
  lemma StepKeys(m: PhraseMap, retained: PhraseMap, phrase: string, added: bool, after: PhraseMap, g: set<string>)
    requires phrase in m
    requires forall p | p in retained :: p in m && retained[p] == m[p]
    requires g == if added then retained.Keys + {phrase} else retained.Keys
    requires after == if added then retained[phrase := m[phrase]] else retained
    ensures after.Keys == g
    ensures forall p | p in after :: p in m && after[p] == m[p]
  {
  }

  lemma ThresholdEligible(m: PhraseMap, minIds: int, minWords: int, phrase: string)
    requires phrase in m
    ensures MeetsThresholds(m, minIds, minWords)(phrase) <==> |m[phrase]| >= minIds && WordCount(phrase) >= minWords
  {
  }

  lemma ThresholdBlocked(m: PhraseMap, retained: PhraseMap, phrase: string)
    requires phrase in m
    requires forall p | p in retained :: p in m && retained[p] == m[p]
    ensures (exists q | q in retained.Keys :: Subsumes(m)(phrase, q)) <==> Inside(phrase, m[phrase], retained)
  {
    forall q | q in retained
      ensures Subsumes(m)(phrase, q) <==> IsSubstring(phrase, q) && retained[q] >= m[phrase]
    {
    }
  }

  /** One step of the greedy pass, from the phrases `kept` among the first `i`. */
  lemma GreedyStep(order: seq<string>, i: int, eligible: string -> bool, blocks: (string, string) -> bool,
                   kept: set<string>)
    requires 0 <= i < |order| && kept == Greedy(order[..i], eligible, blocks)
    ensures Greedy(order[..i + 1], eligible, blocks)
            == if !eligible(order[i]) || exists q | q in kept :: blocks(order[i], q) then kept else kept + {order[i]}
  {
    assert order[..i + 1][..i] == order[..i];
  }

  /**
   * The threshold pass's inner loop: is `phrase` inside a retained phrase
   * with at least its IDs? The loop stops at the first such phrase, so the
   * order in which it visits the retained phrases does not matter.
   */
  method Subsumed(phrase: string, ids: set<string>, retained: PhraseMap) returns (subsumed: bool)
    ensures subsumed <==> Inside(phrase, ids, retained)
  {
    subsumed := false;
    var todo := retained.Keys;
    while todo != {}
      invariant todo <= retained.Keys
      invariant forall q | q in retained && q !in todo :: !(IsSubstring(phrase, q) && retained[q] >= ids)
      decreases todo
    {
      var longer :| longer in todo;
      if IsSubstring(phrase, longer) && retained[longer] >= ids {
        subsumed := true;
        break;
      }
      todo := todo - {longer};
    }
  }

  /** Some retained phrase contains `phrase` and has at least the IDs `ids`. */
  predicate Inside(phrase: string, ids: set<string>, retained: PhraseMap) {
    exists q | q in retained :: IsSubstring(phrase, q) && retained[q] >= ids
  }

  /**
   * A phrase that meets both thresholds is dropped exactly when it is a
   * substring of a retained phrase ranked before it whose ID set contains
   * its own.
   */
  lemma ThresholdDroppedIff(m: PhraseMap, minIds: int, minWords: int, p: string)
    requires p in m && |m[p]| >= minIds && WordCount(p) >= minWords
    ensures var r := PruneThresholdSpec(m, minIds, minWords);
            p !in r <==> exists q | q in r :: RankBefore(q, p) && IsSubstring(p, q) && r[q] >= m[p]
  {
    RankBeforeOrder();
    var eligible := MeetsThresholds(m, minIds, minWords);
    var blocks := Subsumes(m);
    GreedyIsFixpoint(Ranked(m.Keys), RankBefore, eligible, blocks);
    var r := PruneThresholdSpec(m, minIds, minWords);
    assert eligible(p);
    forall q | q in r ensures blocks(p, q) <==> IsSubstring(p, q) && r[q] >= m[p] {
    }
  }

  // ---------------------------------------------------------------------------
  // prune_subphrases_by_tinyid

  /** The phrases an ID appears under. */
  function PhrasesOf(m: PhraseMap, tid: string): set<string> {
    set p | p in m && tid in m[p]
  }

  /** The phrases kept for one ID: the greedy pass over that ID's phrases alone. */
  ghost function KeptFor(m: PhraseMap, tid: string): (kept: set<string>)
    ensures kept <= PhrasesOf(m, tid)
  {
    Greedy(Ranked(PhrasesOf(m, tid)), AnyPhrase, IsProperSubstring)
  }

  /** The IDs for which the phrase `p` was kept. */
  ghost function KeptIds(m: PhraseMap, p: string): set<string>
    requires p in m
  {
    set tid | tid in m[p] && p in KeptFor(m, tid)
  }

  /** `prune_subphrases_by_tinyid(m)`: each phrase with the IDs it was kept for, if any. */
  ghost function PruneByTinyIdSpec(m: PhraseMap): (r: PhraseMap)
    ensures r.Keys <= m.Keys
    ensures forall p | p in r :: r[p] <= m[p] && r[p] != {}
  {
    map p | p in m && KeptIds(m, p) != {} :: KeptIds(m, p)
  }

  /** The set a `defaultdict(set)` gives for `k`. */
  function SetOf(d: map<string, set<string>>, k: string): set<string> {
    if k in d then d[k] else {}
  }

  method PruneByTinyId(m: PhraseMap) returns (collapsed: PhraseMap)
    ensures collapsed == PruneByTinyIdSpec(m)
  {
    var index := ReverseIndex(m);
    ghost var keptOf;
    var longest;
    longest, keptOf := LongestPerId(m, index);
    // The final copy into `collapsed_map` leaves every entry as it is.
    collapsed := longest;
    ByTinyIdResult(m, index, keptOf, longest);
  }

  /** For each ID, keep only its longest phrases that are not substrings of others. */
  method LongestPerId(m: PhraseMap, index: map<string, set<string>>)
      returns (longest: map<string, set<string>>, ghost keptOf: map<string, set<string>>)
    requires forall tid :: SetOf(index, tid) == PhrasesOf(m, tid)
    ensures keptOf.Keys == index.Keys && Collected(m, keptOf, longest)
  {
    longest := map[];
    keptOf := map[];  // the IDs done so far, with the phrases kept for each
    var todo := index.Keys;
    CollectedEmpty(m);
    assert keptOf.Keys == index.Keys - todo;
    while todo != {}
      invariant todo <= index.Keys && keptOf.Keys == index.Keys - todo
      invariant Collected(m, keptOf, longest)
      decreases todo
    {
      var tid :| tid in todo;
      var sorted := RankPhrases(index[tid]);
      var kept := KeepLongest(sorted);
      assert index[tid] == PhrasesOf(m, tid) by {
        assert index[tid] == SetOf(index, tid);
      }
      assert kept == KeptFor(m, tid);
      ghost var before := longest;
      longest := AddId(longest, kept, tid);
      CollectedStep(m, keptOf, tid, kept, before, longest);
      DoneStep(index.Keys, todo, keptOf, tid, kept);
      keptOf := keptOf[tid := kept];
      todo := todo - {tid};
    }
    assert index.Keys - todo == index.Keys;
  }

  lemma CollectedEmpty(m: PhraseMap)
    ensures Collected(m, map[], map[])
  {
  }

  /** Bookkeeping of the IDs done: one more. */
  lemma DoneStep(all: set<string>, todo: set<string>, done: map<string, set<string>>, tid: string, kept: set<string>)
    requires done.Keys == all - todo && tid in todo && todo <= all
    ensures done[tid := kept].Keys == all - (todo - {tid})
  {
  }

  /**
   * `longest` holds, for each phrase, the IDs done so far for which it was
   * kept; `keptOf` records the kept set of each ID done so far.
   */
  ghost predicate Collected(m: PhraseMap, keptOf: map<string, set<string>>, longest: map<string, set<string>>) {
    (forall t | t in keptOf :: keptOf[t] == KeptFor(m, t))
    && (forall p, t :: t in SetOf(longest, p) <==> t in keptOf && p in keptOf[t])
    && (forall p | p in longest :: |longest[p]| > 0)
  }

  lemma CollectedStep(m: PhraseMap, keptOf: map<string, set<string>>, tid: string, kept: set<string>,
                      before: map<string, set<string>>, after: map<string, set<string>>)
    requires Collected(m, keptOf, before) && tid !in keptOf
    requires kept == KeptFor(m, tid)
    requires forall p, t :: t in SetOf(after, p) <==> t in SetOf(before, p) || (t == tid && p in kept)
    requires forall p | p in after :: |after[p]| > 0
    ensures Collected(m, keptOf[tid := kept], after)
  {
    KeptOfStep(m, keptOf, tid, kept);
    PivotStep(keptOf, tid, kept, before, after);
  }

  lemma KeptOfStep(m: PhraseMap, keptOf: map<string, set<string>>, tid: string, kept: set<string>)
    requires forall t | t in keptOf :: keptOf[t] == KeptFor(m, t)
    requires kept == KeptFor(m, tid)
    ensures forall t | t in keptOf[tid := kept] :: keptOf[tid := kept][t] == KeptFor(m, t)
  {
  }

  lemma PivotStep(keptOf: map<string, set<string>>, tid: string, kept: set<string>,
                  before: map<string, set<string>>, after: map<string, set<string>>)
    requires tid !in keptOf
    requires forall p, t :: t in SetOf(before, p) <==> t in keptOf && p in keptOf[t]
    requires forall p, t :: t in SetOf(after, p) <==> t in SetOf(before, p) || (t == tid && p in kept)
    ensures forall p, t :: t in SetOf(after, p) <==> t in keptOf[tid := kept] && p in keptOf[tid := kept][t]
  {
  }

  lemma ByTinyIdResult(m: PhraseMap, index: map<string, set<string>>, keptOf: map<string, set<string>>,
                       longest: map<string, set<string>>)
    requires forall tid :: SetOf(index, tid) == PhrasesOf(m, tid)
    requires keptOf.Keys == index.Keys
    requires Collected(m, keptOf, longest)
    ensures longest == PruneByTinyIdSpec(m)
  {
    var r := PruneByTinyIdSpec(m);
    forall p, tid ensures tid in SetOf(longest, p) <==> tid in index.Keys && p in KeptFor(m, tid) {
      if tid in keptOf {
        assert keptOf[tid] == KeptFor(m, tid);
      }
    }
    forall p ensures (p in longest <==> p in r) && (p in longest ==> longest[p] == r[p]) {
      ByTinyIdAt(m, index, longest, p);
      ByTinyIdEntry(m, longest, p);
    }
    SameEntries(longest, r);
  }

  lemma SameEntries(a: map<string, set<string>>, b: map<string, set<string>>)
    requires forall k :: (k in a <==> k in b) && (k in a ==> a[k] == b[k])
    ensures a == b
  {
  }

  lemma ByTinyIdEntry(m: PhraseMap, longest: map<string, set<string>>, p: string)
    requires forall p | p in longest :: |longest[p]| > 0
    requires SetOf(longest, p) == if p in m then KeptIds(m, p) else {}
    ensures p in longest <==> p in PruneByTinyIdSpec(m)
    ensures p in longest ==> longest[p] == PruneByTinyIdSpec(m)[p]
  {
  }

  lemma ByTinyIdAt(m: PhraseMap, index: map<string, set<string>>, longest: map<string, set<string>>, p: string)
    requires forall tid :: SetOf(index, tid) == PhrasesOf(m, tid)
    requires forall p, tid :: tid in SetOf(longest, p) <==> tid in index.Keys && p in KeptFor(m, tid)
    ensures SetOf(longest, p) == if p in m then KeptIds(m, p) else {}
  {
    forall tid | tid in SetOf(longest, p) ensures p in m && tid in KeptIds(m, p) {
      assert p in PhrasesOf(m, tid);
    }
    if p in m {
      forall tid | tid in KeptIds(m, p) ensures tid in SetOf(longest, p) {
        assert p in PhrasesOf(m, tid);
        assert p in SetOf(index, tid);
      }
    }
  }

  /** The reverse index: ID -> the phrases it appears under. */
  method ReverseIndex(m: PhraseMap) returns (index: map<string, set<string>>)
    ensures forall tid :: SetOf(index, tid) == PhrasesOf(m, tid)
    ensures forall tid | tid in index :: index[tid] != {}
  {
    index := map[];
    var todo := m.Keys;
    while todo != {}
      invariant todo <= m.Keys
      invariant forall tid, p :: p in SetOf(index, tid) <==> p in m.Keys - todo && tid in m[p]
      invariant forall tid | tid in index :: index[tid] != {}
      decreases todo
    {
      var phrase :| phrase in todo;
      var ids := m[phrase];
      while ids != {}
        invariant ids <= m[phrase]
        invariant forall tid, p :: p in SetOf(index, tid) <==>
                    (p in m.Keys - todo && tid in m[p]) || (p == phrase && tid in m[phrase] - ids)
        invariant forall tid | tid in index :: index[tid] != {}
        decreases ids
      {
        var tid :| tid in ids;
        ghost var before := index;
        index := index[tid := SetOf(index, tid) + {phrase}];
        forall t, p ensures p in SetOf(index, t) <==> p in SetOf(before, t) || (t == tid && p == phrase) {
        }
        ids := ids - {tid};
      }
      var rest := todo - {phrase};
      forall t, p ensures (p in m.Keys - todo && t in m[p]) || (p == phrase && t in m[phrase])
                          <==> p in m.Keys - rest && t in m[p] {
      }
      todo := rest;
    }
    assert m.Keys - todo == m.Keys;
    forall tid ensures SetOf(index, tid) == PhrasesOf(m, tid) {
      forall p ensures p in SetOf(index, tid) <==> p in PhrasesOf(m, tid) {
      }
    }
  }

  /** `for p in kept: longest_phrases_per_tid[p].add(tid)`. */
  method AddId(longest: map<string, set<string>>, kept: set<string>, tid: string) returns (r: map<string, set<string>>)
    requires forall p | p in longest :: |longest[p]| > 0
    ensures forall p, t :: t in SetOf(r, p) <==> t in SetOf(longest, p) || (t == tid && p in kept)
    ensures forall p | p in r :: |r[p]| > 0
  {
    r := longest;
    var todo := kept;
    while todo != {}
      invariant todo <= kept
      invariant forall p, t :: t in SetOf(r, p) <==> t in SetOf(longest, p) || (t == tid && p in kept - todo)
      invariant forall p | p in r :: |r[p]| > 0
      decreases todo
    {
      var p :| p in todo;
      AddIdStep(longest, kept, tid, todo, r, p);
      r := r[p := SetOf(r, p) + {tid}];
      todo := todo - {p};
    }
  }

  /** Adding `tid` under one more phrase of `kept`. */
  lemma AddIdStep(longest: map<string, set<string>>, kept: set<string>, tid: string, todo: set<string>,
                  before: map<string, set<string>>, p: string)
    requires p in todo && todo <= kept
    requires forall q, t :: t in SetOf(before, q) <==> t in SetOf(longest, q) || (t == tid && q in kept - todo)
    requires forall q | q in before :: |before[q]| > 0
    ensures var r := before[p := SetOf(before, p) + {tid}];
      (forall q, t :: t in SetOf(r, q) <==> t in SetOf(longest, q) || (t == tid && q in kept - (todo - {p})))
      && forall q | q in r :: |r[q]| > 0
  {
    var r := before[p := SetOf(before, p) + {tid}];
    forall q, t ensures t in SetOf(r, q) <==> t in SetOf(longest, q) || (t == tid && q in kept - (todo - {p})) {
      if q == p {
        assert SetOf(r, q) == SetOf(before, p) + {tid};
      } else {
        assert SetOf(r, q) == SetOf(before, q);
      }
    }
  }

  /** Pruning never attributes a phrase to an ID that did not have it. */
  lemma ByTinyIdContained(m: PhraseMap, p: string, tid: string)
    requires p in PruneByTinyIdSpec(m) && tid in PruneByTinyIdSpec(m)[p]
    ensures p in m && tid in m[p]
  {
  }

  /** The top-ranked phrase of every ID is kept for it, so no ID disappears. */
  lemma ByTinyIdKeepsTop(m: PhraseMap, tid: string, top: string)
    requires top in PhrasesOf(m, tid)
    requires forall q | q in PhrasesOf(m, tid) :: q == top || RankBefore(top, q)
    ensures top in PruneByTinyIdSpec(m) && tid in PruneByTinyIdSpec(m)[top]
  {
    var order := Ranked(PhrasesOf(m, tid));
    RankBeforeOrder();
    assert top in Elems(order);
    var k :| 0 <= k < |order| && order[k] == top;
    SortedFirst(order, k, RankBefore);
    assert order[0] in PhrasesOf(m, tid);
    GreedyKeepsFirst(order, RankBefore, AnyPhrase, IsProperSubstring);
    assert tid in KeptIds(m, top);
  }

  /** Every ID of the input is still listed under some phrase. */
  lemma ByTinyIdCovers(m: PhraseMap, p: string, tid: string)
    requires p in m && tid in m[p]
    ensures exists q | q in PruneByTinyIdSpec(m) :: tid in PruneByTinyIdSpec(m)[q]
  {
    var order := Ranked(PhrasesOf(m, tid));
    assert p in Elems(order);
    RankBeforeOrder();
    var top := order[0];
    forall q | q in PhrasesOf(m, tid) ensures q == top || RankBefore(top, q) {
      assert q in Elems(order);
      var k :| 0 <= k < |order| && order[k] == q;
      SortedFirst(order, k, RankBefore);
    }
    ByTinyIdKeepsTop(m, tid, top);
    ListedUnder(PruneByTinyIdSpec(m), top, tid);
  }

  lemma ListedUnder(r: PhraseMap, q: string, tid: string)
    requires q in r && tid in r[q]
    ensures exists q' | q' in r :: tid in r[q']
  {
  }

  /**
   * For one ID, a phrase loses that ID exactly when it is a proper substring
   * of a phrase ranked before it that keeps the ID.
   */
  lemma ByTinyIdRemovedIff(m: PhraseMap, p: string, tid: string)
    requires p in m && tid in m[p]
    ensures var r := PruneByTinyIdSpec(m);
            tid !in SetOf(r, p) <==>
              exists q | q in r && tid in r[q] :: RankBefore(q, p) && IsProperSubstring(p, q)
  {
    var r := PruneByTinyIdSpec(m);
    RankBeforeOrder();
    var S := PhrasesOf(m, tid);
    GreedyIsFixpoint(Ranked(S), RankBefore, AnyPhrase, IsProperSubstring);
    assert p in S;
    forall q ensures (q in r && tid in r[q]) <==> q in KeptFor(m, tid) {
      if q in KeptFor(m, tid) {
        assert q in S;
        assert tid in KeptIds(m, q);
      }
    }
  }
}
