/**
 * The phrase extractor's aggregation: `collect_all_phrase_occurrences` mines
 * every record that has a tinyId, then each path's phrase map is pruned,
 * filtered by the number of distinct IDs and turned into sorted ID lists;
 * `prune_subphrases` dispatches on a strategy name.
 *
 * The post-processing loop as written keeps its `pruned` variable from one
 * path to the next (`AsWrittenPass`); the corrected loop (`Finish`, specified
 * by `Finished`) is the one the aggregators use.
 */
module PhraseExtractor {
  import opened Wrappers
  import opened Strings
  import opened Sorting
  import opened Json
  import PP = PhrasePruning
  import PE = PhraseExtraction

  /** phrase -> sorted tinyIds, one path's entry in the output. */
  type PhraseIds = map<string, seq<string>>

  /** path -> phrase -> sorted tinyIds. */
  type Output = map<string, PhraseIds>

  /** The per-path pruning an aggregator applies before filtering. */
  datatype Pruning = NoPruning | PerId | Global

  /** The `prune` argument: "tinyid" and "global" prune, any other name leaves the map as it is. */
  function StrategyOf(prune: string): (p: Pruning)
    ensures p == PerId <==> prune == "tinyid"
    ensures p == Global <==> prune == "global"
  {
    if prune == "tinyid" then PerId else if prune == "global" then Global else NoPruning
  }

  // ---------------------------------------------------------------------------
  // Records and their tinyIds

  /** `getattr(item, "tinyId", None)` when truthy: a non-empty string attribute. */
  function TinyIdOf(item: Json): (r: Option<string>)
    ensures r.Some? ==> r.value != "" && item.Obj? && Get(item.fields, "tinyId") == Some(Str(r.value))
    ensures r.None? ==> !item.Obj? || Get(item.fields, "tinyId") == None || !Truthy(Get(item.fields, "tinyId").value)
                        || !Get(item.fields, "tinyId").value.Str?
  {
    if item.Obj? then
      match Get(item.fields, "tinyId")
      case Some(Str(s)) => if s != "" then Some(s) else None
      case _ => None
    else None
  }

  /** Some match of `ms` is at `path` and yields `phrase`. */
  predicate MinedFrom(ms: seq<PE.Match>, mine: PE.Match -> seq<string>, path: string, phrase: string) {
    exists i | 0 <= i < |ms| :: ms[i].Path() == path && phrase in mine(ms[i])
  }

  /**
   * `final_result` after every record: the fields `walk` mines from each
   * record with a tinyId are tallied in turn, the phrases `mineFor(tid)` gives
   * filed under that tinyId; records without one are skipped.
   */
  function Gathered(items: seq<Json>, walk: Json -> seq<PE.Match>, mineFor: string -> (PE.Match -> seq<string>)): PE.PhraseMap
    decreases |items|
  {
    if items == [] then map[]
    else
      var d := Gathered(items[..|items| - 1], walk, mineFor);
      var item := items[|items| - 1];
      match TinyIdOf(item)
      case None => d
      case Some(tid) => PE.Tally(d, mineFor(tid), tid, walk(item), false)
  }

  /**
   * An ID is filed under a path and phrase exactly when some record has that
   * tinyId and one of its mined fields at the path yields the phrase: records
   * without a tinyId contribute nothing.
   */
  lemma {:induction false} GatheredHolds(items: seq<Json>, walk: Json -> seq<PE.Match>, mineFor: string -> (PE.Match -> seq<string>),
                                         path: string, phrase: string, x: string)
    ensures PE.Holds(Gathered(items, walk, mineFor), path, phrase, x) <==>
      exists k | 0 <= k < |items| :: TinyIdOf(items[k]) == Some(x) && MinedFrom(walk(items[k]), mineFor(x), path, phrase)
    decreases |items|
  {
    if items != [] {
      GatheredHolds(items[..|items| - 1], walk, mineFor, path, phrase, x);
      GatheredStep(items, walk, mineFor, path, phrase, x);
      ContributesSplit(items, walk, mineFor, path, phrase, x);
    }
  }

  /** The last record adds `x` under `path` and `phrase` exactly when it is `x`'s and yields the phrase there. */
  lemma GatheredStep(items: seq<Json>, walk: Json -> seq<PE.Match>, mineFor: string -> (PE.Match -> seq<string>),
                     path: string, phrase: string, x: string)
    requires items != []
    ensures var item := items[|items| - 1];
      PE.Holds(Gathered(items, walk, mineFor), path, phrase, x) <==>
        PE.Holds(Gathered(items[..|items| - 1], walk, mineFor), path, phrase, x)
        || (TinyIdOf(item) == Some(x) && MinedFrom(walk(item), mineFor(x), path, phrase))
  {
    var item := items[|items| - 1];
    var d := Gathered(items[..|items| - 1], walk, mineFor);
    match TinyIdOf(item)
    case None =>
    case Some(tid) =>
      var ms := walk(item);
      PE.TallyHolds(d, mineFor(tid), tid, ms, false, path, phrase, x);
      if MinedFrom(ms, mineFor(x), path, phrase) && tid == x {
        var i :| 0 <= i < |ms| && ms[i].Path() == path && phrase in mineFor(x)(ms[i]);
        assert PE.Label(tid, ms[i], false) == x;
      }
  }

  /** Some record contributes exactly when one of the earlier records or the last one does. */
  lemma ContributesSplit(items: seq<Json>, walk: Json -> seq<PE.Match>, mineFor: string -> (PE.Match -> seq<string>),
                         path: string, phrase: string, x: string)
    requires items != []
    ensures var init := items[..|items| - 1];
      var item := items[|items| - 1];
      (exists k | 0 <= k < |items| :: TinyIdOf(items[k]) == Some(x) && MinedFrom(walk(items[k]), mineFor(x), path, phrase))
      <==> ((exists k | 0 <= k < |init| :: TinyIdOf(init[k]) == Some(x) && MinedFrom(walk(init[k]), mineFor(x), path, phrase))
            || (TinyIdOf(item) == Some(x) && MinedFrom(walk(item), mineFor(x), path, phrase)))
  {
    var init := items[..|items| - 1];
    assert forall k | 0 <= k < |init| :: init[k] == items[k];
  }

  /** Nothing a walk files lacks a phrase or a label. */
  lemma {:induction false} GatheredWellFormed(items: seq<Json>, walk: Json -> seq<PE.Match>, mineFor: string -> (PE.Match -> seq<string>))
    ensures PE.WellFormed(Gathered(items, walk, mineFor))
    decreases |items|
  {
    if items != [] {
      var init := items[..|items| - 1];
      GatheredWellFormed(init, walk, mineFor);
      match TinyIdOf(items[|items| - 1])
      case None =>
      case Some(tid) =>
        PE.TallyWellFormed(Gathered(init, walk, mineFor), mineFor(tid), tid, walk(items[|items| - 1]), false);
    }
  }

  // ---------------------------------------------------------------------------
  // One path: prune, then filter and sort

  /** `sorted()` on strings: code-point order is a strict total order. */
  lemma LexOrder()
    ensures StrictTotalOrder(LexLess)
  {
    forall a: string ensures !LexLess(a, a) {
      LexIrreflexive(a);
    }
    forall a: string, b: string, c: string | LexLess(a, b) && LexLess(b, c) ensures LexLess(a, c) {
      LexTransitive(a, b, c);
    }
    forall a: string, b: string | a != b ensures LexLess(a, b) || LexLess(b, a) {
      LexTotal(a, b);
    }
  }

  /** A path's phrase map after the aggregator's pruning step. */
  ghost function Pruned(pm: PP.PhraseMap, strategy: Pruning): (r: PP.PhraseMap)
    ensures r.Keys <= pm.Keys && forall p | p in r :: r[p] <= pm[p]
  {
    match strategy
    case NoPruning => pm
    case PerId => PP.PruneByTinyIdSpec(pm)
    case Global => PP.PruneGlobalSpec(pm)
  }

  /**
   * `{phrase: sorted(ids) for phrase, ids in pm.items() if len(ids) >= min_ids}`:
   * exactly the phrases with at least `minIds` IDs, each with its IDs as a
   * strictly increasing list.
   */
  ghost function Filtered(pm: PP.PhraseMap, minIds: int): (r: PhraseIds)
    ensures forall p :: p in r <==> p in pm && |pm[p]| >= minIds
    ensures forall p | p in r :: SortedBy(r[p], LexLess) && Elems(r[p]) == pm[p] && |r[p]| == |pm[p]|
  {
    LexOrder();
    map p | p in pm && |pm[p]| >= minIds :: Sorted(pm[p], LexLess)
  }

  /** A strictly increasing list holds no ID twice. */
  lemma FilteredDistinct(pm: PP.PhraseMap, minIds: int, p: string)
    requires p in Filtered(pm, minIds)
    ensures var ids := Filtered(pm, minIds)[p];
      |ids| >= minIds && forall i, j | 0 <= i < j < |ids| :: ids[i] != ids[j]
  {
    var ids := Filtered(pm, minIds)[p];
    forall i, j | 0 <= i < j < |ids| ensures ids[i] != ids[j] {
      LexIrreflexive(ids[i]);
    }
  }

  /** The filter comprehension, one phrase at a time. */
  method FilterIds(pm: PP.PhraseMap, minIds: int) returns (filtered: PhraseIds)
    ensures filtered == Filtered(pm, minIds)
  {
    LexOrder();
    filtered := map[];
    var todo := pm.Keys;
    while todo != {}
      invariant todo <= pm.Keys
      invariant forall p :: p in filtered <==> p in pm.Keys - todo && |pm[p]| >= minIds
      invariant forall p | p in filtered :: filtered[p] == Sorted(pm[p], LexLess)
      decreases todo
    {
      var phrase :| phrase in todo;
      if |pm[phrase]| >= minIds {
        var ids := SortSet(pm[phrase], LexLess);
        filtered := filtered[phrase := ids];
      }
      todo := todo - {phrase};
    }
    SameIds(filtered, Filtered(pm, minIds));
  }

  lemma SameIds(a: PhraseIds, b: PhraseIds)
    requires forall p :: p in a <==> p in b
    requires forall p | p in a :: a[p] == b[p]
    ensures a == b
  {
  }

  // ---------------------------------------------------------------------------
  // All paths, with the defect corrected

  /** Every path's filtered map: the pruned map of its phrases, filtered and sorted. */
  ghost function PerPath(results: PE.PhraseMap, strategy: Pruning, minIds: int): (filt: map<string, PhraseIds>)
    ensures filt.Keys == results.Keys
  {
    map path | path in results :: Filtered(Pruned(results[path], strategy), minIds)
  }

  /** One path's filtered map: its phrase map pruned, then filtered and sorted. */
  method PathOutput(results: PE.PhraseMap, path: string, strategy: Pruning, minIds: int) returns (filtered: PhraseIds)
    requires path in results
    ensures filtered == PerPath(results, strategy, minIds)[path]
  {
    var phraseMap := results[path];
    if strategy == PerId {
      phraseMap := PP.PruneByTinyId(phraseMap);
    }
    if strategy == Global {
      phraseMap := PP.PruneGlobal(phraseMap);
    }
    assert phraseMap == Pruned(results[path], strategy);
    filtered := FilterIds(phraseMap, minIds);
  }

  /** The output restricted to the paths in `paths`: each such path whose filtered map is non-empty, with that map. */
  function FinishedOn(filt: map<string, PhraseIds>, paths: set<string>): Output {
    map path | path in paths && path in filt && |filt[path]| > 0 :: filt[path]
  }

  /**
   * The output of the post-processing loop as evidently intended: a path is
   * present exactly when its filtered map is non-empty, and then holds that map.
   */
  ghost function Finished(results: PE.PhraseMap, strategy: Pruning, minIds: int): Output {
    FinishedOn(PerPath(results, strategy, minIds), results.Keys)
  }

  /**
   * Every emitted ID list is strictly increasing, has at least `minIds`
   * entries, and every ID in it was filed under that path and phrase: pruning
   * never invents an attribution.
   */
  lemma FinishedSound(results: PE.PhraseMap, strategy: Pruning, minIds: int, path: string, phrase: string)
    requires path in Finished(results, strategy, minIds) && phrase in Finished(results, strategy, minIds)[path]
    ensures var ids := Finished(results, strategy, minIds)[path][phrase];
      SortedBy(ids, LexLess) && |ids| >= minIds
      && forall x | x in ids :: PE.Holds(results, path, phrase, x)
  {
    var pm := Pruned(results[path], strategy);
    assert Finished(results, strategy, minIds)[path] == Filtered(pm, minIds);
    var ids := Filtered(pm, minIds)[phrase];
    assert Elems(ids) == pm[phrase];
    forall x | x in ids ensures PE.Holds(results, path, phrase, x) {
      assert x in Elems(ids);
    }
  }

  /**
   * Without pruning, a phrase appears under a path exactly when at least
   * `minIds` distinct IDs were filed under it there.
   */
  lemma FinishedUnpruned(results: PE.PhraseMap, minIds: int, path: string, phrase: string)
    ensures (path in Finished(results, NoPruning, minIds) && phrase in Finished(results, NoPruning, minIds)[path])
      <==> path in results && phrase in results[path] && |results[path][phrase]| >= minIds
  {
    if path in results {
      var f := PerPath(results, NoPruning, minIds)[path];
      assert f == Filtered(results[path], minIds);
      if phrase in results[path] && |results[path][phrase]| >= minIds {
        assert phrase in f;
      }
    }
  }

  /** The post-processing loop over every path of `final_result`, each path on its own. */
  method Finish(results: PE.PhraseMap, strategy: Pruning, minIds: int) returns (output: Output)
    ensures output == Finished(results, strategy, minIds)
  {
    ghost var filt := PerPath(results, strategy, minIds);
    output := map[];
    var todo := results.Keys;
    while todo != {}
      invariant todo <= results.Keys
      invariant forall q :: q in output <==> q in results.Keys && q !in todo && |filt[q]| > 0
      invariant forall q | q in output :: output[q] == filt[q]
      decreases todo
    {
      var path :| path in todo;
      var filtered := PathOutput(results, path, strategy, minIds);
      ghost var before := output;
      if |filtered| > 0 {
        output := output[path := filtered];
      }
      FinishStep(filt, results.Keys, todo, before, path, filtered, output);
      todo := todo - {path};
    }
    FinishedOnAll(filt, results.Keys, output);
  }

  /** One path handled: stored when its filtered map is non-empty, skipped otherwise. */
  lemma FinishStep(filt: map<string, PhraseIds>, paths: set<string>, todo: set<string>, output: Output, path: string,
                    filtered: PhraseIds, out: Output)
    requires path in todo && todo <= paths && paths <= filt.Keys && filtered == filt[path]
    requires forall q :: q in output <==> q in paths && q !in todo && |filt[q]| > 0
    requires forall q | q in output :: output[q] == filt[q]
    requires out == if |filtered| > 0 then output[path := filtered] else output
    ensures forall q :: q in out <==> q in paths && q !in todo - {path} && |filt[q]| > 0
    ensures forall q | q in out :: out[q] == filt[q]
  {
  }

  /** A map that holds exactly the non-empty filtered maps of `paths` is the output on `paths`. */
  lemma FinishedOnAll(filt: map<string, PhraseIds>, paths: set<string>, out: Output)
    requires paths <= filt.Keys
    requires forall q :: q in out <==> q in paths && |filt[q]| > 0
    requires forall q | q in out :: out[q] == filt[q]
    ensures out == FinishedOn(filt, paths)
  {
  }

  // ---------------------------------------------------------------------------
  // All paths, as written

  /** The loop state after some paths: `output` and the `pruned` local, unbound until first set. */
  datatype Pass = Pass(output: Output, pruned: Option<PhraseIds>)

  /**
   * The post-processing loop as written, over the paths in dict order, given
   * each path's filtered map. A non-empty filtered map is stored and
   * remembered in `pruned`; then `if pruned:` stores `pruned` again, so a path
   * whose own filtered map is empty receives the last non-empty one, and the
   * loop raises UnboundLocalError when no earlier path had one.
   */
  function AsWrittenPass(filt: map<string, PhraseIds>, order: seq<string>): Result<Pass>
    requires forall path | path in order :: path in filt
    decreases |order|
  {
    if order == [] then Ok(Pass(map[], None))
    else
      match AsWrittenPass(filt, order[..|order| - 1])
      case Err(e) => Err(e)
      case Ok(st) => AsWrittenStep(st, order[|order| - 1], filt[order[|order| - 1]])
  }

  /** One iteration of the loop as written, for a path whose filtered map is `filtered`. */
  function AsWrittenStep(st: Pass, path: string, filtered: PhraseIds): Result<Pass> {
    var output := if |filtered| > 0 then st.output[path := filtered] else st.output;
    var pruned := if |filtered| > 0 then Some(filtered) else st.pruned;
    match pruned
    case None => Err(UnboundLocalError("pruned"))
    case Some(p) => Ok(Pass(if |p| > 0 then output[path := p] else output, pruned))
  }

  /** The loop as written, with `pruned` carried across iterations. */
  method FinishAsWritten(results: PE.PhraseMap, order: seq<string>, strategy: Pruning, minIds: int) returns (r: Result<Output>)
    requires forall path | path in order :: path in results
    ensures var pass := AsWrittenPass(PerPath(results, strategy, minIds), order);
      (r.Ok? <==> pass.Ok?) && (r.Ok? ==> r.value == pass.value.output) && (r.Err? ==> r.error == pass.error)
  {
    ghost var filt := PerPath(results, strategy, minIds);
    var output: Output := map[];
    var pruned: Option<PhraseIds> := None;
    for k := 0 to |order|
      invariant AsWrittenPass(filt, order[..k]) == Ok(Pass(output, pruned))
    {
      AsWrittenPassStep(filt, order, k, Pass(output, pruned));
      var path := order[k];
      var filtered := PathOutput(results, path, strategy, minIds);
      if |filtered| > 0 {
        output := output[path := filtered];
        pruned := Some(filtered);
      }
      if pruned.None? {
        AsWrittenErrStays(filt, order, k + 1);
        return Err(UnboundLocalError("pruned"));
      }
      if |pruned.value| > 0 {
        output := output[path := pruned.value];
      }
    }
    assert order[..|order|] == order;
    r := Ok(output);
  }

  /** One more path of the loop as written. */
  lemma AsWrittenPassStep(filt: map<string, PhraseIds>, order: seq<string>, k: nat, st: Pass)
    requires forall path | path in order :: path in filt
    requires k < |order| && AsWrittenPass(filt, order[..k]) == Ok(st)
    ensures order[k] in filt
    ensures AsWrittenPass(filt, order[..k + 1]) == AsWrittenStep(st, order[k], filt[order[k]])
  {
    assert order[..k + 1][..k] == order[..k];
  }

  /** Once the loop has raised, it stays raised. */
  lemma {:induction false} AsWrittenErrStays(filt: map<string, PhraseIds>, order: seq<string>, k: int)
    requires forall path | path in order :: path in filt
    requires 0 <= k <= |order| && AsWrittenPass(filt, order[..k]).Err?
    ensures AsWrittenPass(filt, order) == AsWrittenPass(filt, order[..k])
    decreases |order| - k
  {
    if k < |order| {
      assert order[..k + 1][..k] == order[..k];
      AsWrittenErrStays(filt, order, k + 1);
    } else {
      assert order[..k] == order;
    }
  }

  /** Where a path's filtered map is non-empty, the loop as written stores exactly that map there. */
  lemma {:induction false} AsWrittenKeepsFiltered(filt: map<string, PhraseIds>, order: seq<string>, path: string)
    requires forall q | q in order :: q in filt
    requires AsWrittenPass(filt, order).Ok?
    requires path in order && |filt[path]| > 0
    ensures path in AsWrittenPass(filt, order).value.output
    ensures AsWrittenPass(filt, order).value.output[path] == filt[path]
    decreases |order|
  {
    var init := order[..|order| - 1];
    if order[|order| - 1] != path {
      assert path in init;
      AsWrittenKeepsFiltered(filt, init, path);
    }
  }

  /** When every path has phrases left after filtering, the loop as written gives the intended output. */
  lemma AsWrittenAgrees(filt: map<string, PhraseIds>, order: seq<string>)
    requires forall q | q in order :: q in filt && |filt[q]| > 0
    ensures AsWrittenPass(filt, order).Ok?
    ensures AsWrittenPass(filt, order).value.output == FinishedOn(filt, Elems(order))
  {
    AsWrittenStores(filt, order);
    FinishedOnAll(filt, Elems(order), AsWrittenPass(filt, order).value.output);
  }

  /** When every path has phrases left, the loop as written stores each path's own map and nothing else. */
  lemma {:induction false} AsWrittenStores(filt: map<string, PhraseIds>, order: seq<string>)
    requires forall q | q in order :: q in filt && |filt[q]| > 0
    ensures AsWrittenPass(filt, order).Ok?
    ensures var out := AsWrittenPass(filt, order).value.output;
      out.Keys == Elems(order) && forall q | q in out :: out[q] == filt[q]
    decreases |order|
  {
    if order != [] {
      var init := order[..|order| - 1];
      var path := order[|order| - 1];
      AsWrittenStores(filt, init);
      var st := AsWrittenPass(filt, init).value;
      var out := st.output[path := filt[path]][path := filt[path]];
      assert AsWrittenPass(filt, order) == AsWrittenStep(st, path, filt[path]) == Ok(Pass(out, Some(filt[path])));
      ElemsInit(order);
      StoredAgain(st.output, filt, path);
    }
  }

  lemma ElemsInit(s: seq<string>)
    requires s != []
    ensures Elems(s) == Elems(s[..|s| - 1]) + {s[|s| - 1]}
  {
    assert s == s[..|s| - 1] + [s[|s| - 1]];
  }

  /** Storing a path's own map, twice over, keeps every stored map equal to its path's. */
  lemma StoredAgain(m: Output, filt: map<string, PhraseIds>, path: string)
    requires path in filt && forall q | q in m :: q in filt && m[q] == filt[q]
    ensures var out := m[path := filt[path]][path := filt[path]];
      out.Keys == m.Keys + {path} && forall q | q in out :: q in filt && out[q] == filt[q]
  {
  }

  /**
   * The defect: after a path `a` with phrases left, a path `b` with none
   * receives `a`'s phrases, although `b` has no place in the intended output.
   */
  lemma AsWrittenStale(filt: map<string, PhraseIds>, a: string, b: string)
    requires a in filt && b in filt && a != b
    requires |filt[a]| > 0 && |filt[b]| == 0
    ensures AsWrittenPass(filt, [a, b]) == Ok(Pass(map[a := filt[a], b := filt[a]], Some(filt[a])))
    ensures b !in FinishedOn(filt, filt.Keys)
  {
    var fa := filt[a];
    assert [a][..0] == [];
    assert AsWrittenPass(filt, [a]) == Ok(Pass(map[][a := fa][a := fa], Some(fa)));
    assert map[][a := fa][a := fa] == map[a := fa];
    assert [a, b][..1] == [a];
  }

  /** The defect: when the first path has no phrases left, the loop as written raises UnboundLocalError. */
  lemma AsWrittenUnbound(filt: map<string, PhraseIds>, order: seq<string>)
    requires forall q | q in order :: q in filt
    requires order != [] && |filt[order[0]]| == 0
    ensures AsWrittenPass(filt, order) == Err(UnboundLocalError("pruned"))
  {
    assert [order[0]][..0] == [];
    assert order[..1] == [order[0]];
    AsWrittenErrStays(filt, order, 1);
  }

  // ---------------------------------------------------------------------------
  // collect_all_phrase_occurrences

  /** What the walk of `collect_phrases_from_item` mines from a record, called from the top with the `lemmatize` flag. */
  function Walk(names: set<string>, lemmatize: bool): Json -> seq<PE.Match> {
    item => PE.ItemMatches(item, names, "", lemmatize, false)
  }

  /** The phrases `extract_phrases` gives a mined field, for the settings of a record with tinyId `tid`. */
  function MineFor(nlp: PE.Nlp, names: set<string>, minWords: int, removeStopwords: bool): string -> (PE.Match -> seq<string>) {
    tid => PE.Miner(PE.Settings(nlp, names, tid, minWords, removeStopwords))
  }

  /**
   * `collect_all_phrase_occurrences` without the verbatim output: the walk
   * over every record with a tinyId, then the per-path post-processing.
   */
  method CollectAll(items: seq<Json>, fieldNames: seq<string>, nlp: PE.Nlp, minWords: int, removeStopwords: bool,
                    minIds: int, prune: string, lemmatize: bool)
      returns (output: Output)
    ensures var names := Elems(fieldNames);
      output == Finished(Gathered(items, Walk(names, lemmatize), MineFor(nlp, names, minWords, removeStopwords)), StrategyOf(prune), minIds)
  {
    var names := Elems(fieldNames);
    var collector := new PE.Collector();
    for k := 0 to |items|
      invariant collector.results == Gathered(items[..k], Walk(names, lemmatize), MineFor(nlp, names, minWords, removeStopwords))
    {
      assert items[..k + 1][..k] == items[..k];
      var item := items[k];
      var tid := TinyIdOf(item);
      if tid.Some? {
        var s := PE.Settings(nlp, names, tid.value, minWords, removeStopwords);
        assert MineFor(nlp, names, minWords, removeStopwords)(tid.value) == PE.Miner(s);
        assert Walk(names, lemmatize)(item) == PE.ItemMatches(item, names, "", lemmatize, false);
        collector.Collect(item, s, "", lemmatize, false);
      }
    }
    assert items[..|items|] == items;
    output := Finish(collector.results, StrategyOf(prune), minIds);
  }

  /**
   * End to end: every ID listed under a path and phrase is the tinyId of a
   * record one of whose mined fields at that path yields the phrase, and the
   * list is sorted with at least `minIds` entries.
   */
  lemma CollectAllSound(items: seq<Json>, walk: Json -> seq<PE.Match>, mineFor: string -> (PE.Match -> seq<string>),
                        strategy: Pruning, minIds: int, path: string, phrase: string, x: string)
    requires var out := Finished(Gathered(items, walk, mineFor), strategy, minIds);
      path in out && phrase in out[path] && x in out[path][phrase]
    ensures exists k | 0 <= k < |items| :: TinyIdOf(items[k]) == Some(x) && MinedFrom(walk(items[k]), mineFor(x), path, phrase)
  {
    FinishedSound(Gathered(items, walk, mineFor), strategy, minIds, path, phrase);
    GatheredHolds(items, walk, mineFor, path, phrase, x);
  }

  // ---------------------------------------------------------------------------
  // prune_subphrases

  /** `prune_subphrases`: the named strategy, the map itself for "none", ValueError for any other name. */
  method PruneSubphrases(phraseMap: PP.PhraseMap, strategy: string, minIds: int, minWords: int) returns (r: Result<PP.PhraseMap>)
    ensures strategy == "none" ==> r == Ok(phraseMap)
    ensures strategy == "tinyid" ==> r == Ok(PP.PruneByTinyIdSpec(phraseMap))
    ensures strategy == "global" ==> r == Ok(PP.PruneGlobalSpec(phraseMap))
    ensures strategy == "threshold" ==> r == Ok(PP.PruneThresholdSpec(phraseMap, minIds, minWords))
    ensures strategy !in {"none", "tinyid", "global", "threshold"} ==> r == Err(ValueError("Invalid prune strategy: choose {strategy}"))
    ensures r.Ok? ==> r.value.Keys <= phraseMap.Keys && forall p | p in r.value :: r.value[p] <= phraseMap[p]
  {
    if strategy == "none" {
      return Ok(phraseMap);
    }
    if strategy == "tinyid" {
      var m := PP.PruneByTinyId(phraseMap);
      r := Ok(m);
    } else if strategy == "global" {
      var m := PP.PruneGlobal(phraseMap);
      r := Ok(m);
    } else if strategy == "threshold" {
      var m := PP.PruneThreshold(phraseMap, minIds, minWords);
      r := Ok(m);
    } else {
      r := Err(ValueError("Invalid prune strategy: choose {strategy}"));
    }
  }
}
