/**
 * The older phrase extractor: its own text cleaning (a noun lemmatization
 * that always runs, then a second one or an alphanumeric filter), its own
 * walk (every recursive call falls back to `lemmatize=True`) and its
 * aggregator, which prunes per ID by default.
 */
module LegacyExtractor {
  import opened Wrappers
  import opened Strings
  import opened Sorting
  import opened Json
  import PE = PhraseExtraction
  import PX = PhraseExtractor

  // ---------------------------------------------------------------------------
  // extract_phrases

  /** `lemmatizer.lemmatize(w)`: the lemma under WordNet's default part of speech, noun. */
  function NounLemma(nlp: PE.Nlp, w: string): string {
    nlp.lemmatize(w, PE.Noun)
  }

  /** `[lemmatizer.lemmatize(w) for w in ws if w.isalnum()]`: the noun lemma of each alphanumeric word, in order. */
  function NounLemmas(nlp: PE.Nlp, ws: seq<string>): (r: seq<string>)
    ensures forall w :: w in r <==> exists t | t in ws && PE.IsAlnum(nlp, t) :: w == NounLemma(nlp, t)
  {
    var kept := PE.Filter(ws, w => PE.IsAlnum(nlp, w));
    var r := seq(|kept|, i requires 0 <= i < |kept| => NounLemma(nlp, kept[i]));
    forall t | t in kept ensures NounLemma(nlp, t) in r {
      var i :| 0 <= i < |kept| && kept[i] == t;
      assert r[i] == NounLemma(nlp, t);
    }
    forall w | w in r ensures exists t | t in ws && PE.IsAlnum(nlp, t) :: w == NounLemma(nlp, t) {
      var i :| 0 <= i < |r| && r[i] == w;
      assert kept[i] in kept;
    }
    r
  }

  /**
   * The words the older `extract_phrases` windows over: the tokens of the
   * lower-cased text, noun-lemmatized when alphanumeric; then, when
   * `lemmatize` is set, noun-lemmatized again, else filtered once more to the
   * alphanumeric ones; then, optionally, without stopwords.
   */
  function LegacyCleanWords(nlp: PE.Nlp, text: string, removeStopwords: bool, lemmatize: bool): (r: seq<string>)
    ensures removeStopwords ==> forall w | w in r :: w !in nlp.stopwords
  {
    var once := NounLemmas(nlp, nlp.tokenize(nlp.lower(text)));
    var words := if lemmatize then NounLemmas(nlp, once) else PE.Filter(once, w => PE.IsAlnum(nlp, w));
    if removeStopwords then PE.RmStopwords(nlp, words) else words
  }

  /**
   * Every word comes from an alphanumeric token through the lemmatizer: twice
   * when `lemmatize` is set, and still once when it is not, in which case the
   * lemma itself is alphanumeric.
   */
  lemma LegacyWordOrigin(nlp: PE.Nlp, text: string, removeStopwords: bool, lemmatize: bool, w: string)
    requires w in LegacyCleanWords(nlp, text, removeStopwords, lemmatize)
    ensures exists t | t in nlp.tokenize(nlp.lower(text)) && PE.IsAlnum(nlp, t) ::
      if lemmatize then PE.IsAlnum(nlp, NounLemma(nlp, t)) && w == NounLemma(nlp, NounLemma(nlp, t))
      else PE.IsAlnum(nlp, w) && w == NounLemma(nlp, t)
  {
    var tokens := nlp.tokenize(nlp.lower(text));
    var once := NounLemmas(nlp, tokens);
    var words := if lemmatize then NounLemmas(nlp, once) else PE.Filter(once, w => PE.IsAlnum(nlp, w));
    assert w in words;
    if lemmatize {
      var u :| u in once && PE.IsAlnum(nlp, u) && w == NounLemma(nlp, u);
      var t :| t in tokens && PE.IsAlnum(nlp, t) && u == NounLemma(nlp, t);
      assert PE.IsAlnum(nlp, NounLemma(nlp, t)) && w == NounLemma(nlp, NounLemma(nlp, t));
    } else {
      assert w in once && PE.IsAlnum(nlp, w);
      var t :| t in tokens && PE.IsAlnum(nlp, t) && w == NounLemma(nlp, t);
    }
  }

  /**
   * Stopwords are removed after lemmatization: a stopword token whose lemmas
   * are not stopwords survives, as its lemma.
   */
  lemma StopwordTestsLemma(nlp: PE.Nlp, text: string, t: string)
    requires nlp.tokenize(nlp.lower(text)) == [t]
    requires PE.IsAlnum(nlp, t) && PE.IsAlnum(nlp, NounLemma(nlp, t))
    requires NounLemma(nlp, NounLemma(nlp, t)) !in nlp.stopwords
    ensures LegacyCleanWords(nlp, text, true, true) == [NounLemma(nlp, NounLemma(nlp, t))]
  {
    var l := NounLemma(nlp, t);
    var ll := NounLemma(nlp, l);
    assert PE.Filter([t], w => PE.IsAlnum(nlp, w)) == [t] by {
      assert [t][1..] == [];
    }
    assert NounLemmas(nlp, [t]) == [l];
    assert PE.Filter([l], w => PE.IsAlnum(nlp, w)) == [l] by {
      assert [l][1..] == [];
    }
    assert NounLemmas(nlp, [l]) == [ll];
    assert PE.Filter([ll], w => w !in nlp.stopwords) == [ll] by {
      assert [ll][1..] == [];
    }
  }

  /** The older `extract_phrases`: the windows of at least `minWords` of its clean words. */
  method LegacyExtractPhrases(nlp: PE.Nlp, text: string, minWords: int, removeStopwords: bool, lemmatize: bool)
      returns (phrases: seq<string>)
    ensures phrases == PE.NGrams(LegacyCleanWords(nlp, text, removeStopwords, lemmatize), minWords)
  {
    var words := NounLemmas(nlp, nlp.tokenize(nlp.lower(text)));
    if lemmatize {
      words := NounLemmas(nlp, words);
    } else {
      words := PE.Filter(words, w => PE.IsAlnum(nlp, w));
    }
    if removeStopwords {
      words := PE.RmStopwords(nlp, words);
    }
    phrases := PE.JoinWindows(words, minWords);
  }

  /** The phrases the older extractor gives a mined field. */
  function LegacyMatchPhrases(s: PE.Settings, m: PE.Match): seq<string> {
    PE.NGrams(LegacyCleanWords(s.nlp, m.text, s.removeStopwords, m.lemmatize), s.minWords)
  }

  /** `LegacyMatchPhrases` for fixed settings, as a function of the mined field. */
  function LegacyMiner(s: PE.Settings): PE.Match -> seq<string> {
    m => LegacyMatchPhrases(s, m)
  }

  // ---------------------------------------------------------------------------
  // The walk: only the caller's own dict fields see its `lemmatize` flag

  /** The fields the older walk mines from `item`, in walk order. */
  function LegacyItemMatches(item: Json, names: set<string>, path: string, lemmatize: bool): (r: seq<PE.Match>)
    ensures forall i | 0 <= i < |r| :: r[i].key in names && path <= r[i].parent
    ensures forall i | 0 <= i < |r| :: r[i].lemmatize || (!lemmatize && r[i].parent == path)
    decreases item
  {
    match item
    case Obj(fs) => LegacyFieldMatches(fs, names, path, lemmatize)
    case Arr(es) =>
      var r := LegacyElemMatches(es, names, ExtendPath(path, "*"));
      assert path <= ExtendPath(path, "*");
      r
    case _ => []
  }

  /** The fields mined from a dict's entries, entry by entry. */
  function LegacyFieldMatches(fs: seq<Field>, names: set<string>, path: string, lemmatize: bool): (r: seq<PE.Match>)
    ensures forall i | 0 <= i < |r| :: r[i].key in names && path <= r[i].parent
    ensures forall i | 0 <= i < |r| :: r[i].lemmatize || (!lemmatize && r[i].parent == path)
    decreases fs
  {
    if fs == [] then []
    else LegacyFieldMatches(fs[..|fs| - 1], names, path, lemmatize) + LegacyFieldMatch(fs[|fs| - 1], names, path, lemmatize)
  }

  /** One entry: itself if it is a named string field, else the contents of a list or dict, walked with `lemmatize` on. */
  function LegacyFieldMatch(f: Field, names: set<string>, path: string, lemmatize: bool): (r: seq<PE.Match>)
    ensures forall i | 0 <= i < |r| :: r[i].key in names && path <= r[i].parent
    ensures forall i | 0 <= i < |r| :: r[i].lemmatize || (!lemmatize && r[i].parent == path)
    decreases f
  {
    var newPath := ExtendPath(path, f.key);
    assert path <= newPath;
    if f.key in names && f.value.Str? then [PE.Match(path, f.key, f.value.s, lemmatize)]
    else if f.value.Arr? then
      var r := LegacyElemMatches(f.value.elems, names, newPath + ".*");
      assert newPath <= newPath + ".*";
      r
    else if f.value.Obj? then LegacyItemMatches(f.value, names, newPath, true)
    else []
  }

  /** The fields mined from a list's elements, each walked with `lemmatize` on. */
  function LegacyElemMatches(es: seq<Json>, names: set<string>, path: string): (r: seq<PE.Match>)
    ensures forall i | 0 <= i < |r| :: r[i].key in names && path <= r[i].parent && r[i].lemmatize
    decreases es
  {
    if es == [] then []
    else
      var init := LegacyElemMatches(es[..|es| - 1], names, path);
      var last := LegacyItemMatches(es[|es| - 1], names, path, true);
      assert forall i | 0 <= i < |last| :: last[i].lemmatize;
      init + last
  }

  /** A named string inside a list inside a list is still mined with lemmatization on, unlike in the newer walk. */
  lemma NestedListLemmatizes(key: string, text: string)
    ensures LegacyItemMatches(Obj([Field("l", Arr([Arr([Obj([Field(key, Str(text))])])]))]), {key}, "", false)
      == [PE.Match("l.*.*", key, text, true)]
    ensures PE.ItemMatches(Obj([Field("l", Arr([Arr([Obj([Field(key, Str(text))])])]))]), {key}, "", false, false)
      == [PE.Match("l.*.*", key, text, false)]
  {
    var leaf := [Field(key, Str(text))];
    var inner := [Obj(leaf)];
    var outer := [Arr(inner)];
    var top := [Field("l", Arr(outer))];
    assert leaf[..0] == [] && inner[..0] == [] && outer[..0] == [] && top[..0] == [];
    assert ExtendPath("", "l") + ".*" == "l.*";
    assert ExtendPath("l.*", "*") == "l.*.*";
    // The older walk.
    assert LegacyFieldMatch(leaf[0], {key}, "l.*.*", true) == [PE.Match("l.*.*", key, text, true)];
    assert LegacyFieldMatches(leaf, {key}, "l.*.*", true) == [] + [PE.Match("l.*.*", key, text, true)];
    assert LegacyElemMatches(inner, {key}, "l.*.*") == [] + [PE.Match("l.*.*", key, text, true)];
    assert LegacyElemMatches(outer, {key}, "l.*") == [] + [PE.Match("l.*.*", key, text, true)];
    assert LegacyFieldMatch(top[0], {key}, "", false) == [PE.Match("l.*.*", key, text, true)];
    assert LegacyFieldMatches(top, {key}, "", false) == [] + [PE.Match("l.*.*", key, text, true)];
    // The newer walk.
    assert PE.FieldMatch(leaf[0], {key}, "l.*.*", false) == [PE.Match("l.*.*", key, text, false)];
    assert PE.FieldMatches(leaf, {key}, "l.*.*", false) == [] + [PE.Match("l.*.*", key, text, false)];
    assert PE.ElemMatches(inner, {key}, "l.*.*", false, false) == [] + [PE.Match("l.*.*", key, text, false)];
    assert PE.ElemMatches(outer, {key}, "l.*", true, false) == [] + [PE.Match("l.*.*", key, text, false)];
    assert PE.FieldMatch(top[0], {key}, "", false) == [PE.Match("l.*.*", key, text, false)];
    assert PE.FieldMatches(top, {key}, "", false) == [] + [PE.Match("l.*.*", key, text, false)];
  }

  // ---------------------------------------------------------------------------
  // collect_phrases_from_item

  /** The older walker: one phrase map, filled in place. */
  class LegacyCollector {
    /** path -> phrase -> tinyIds of the records the phrase came from. */
    var results: PE.PhraseMap

    constructor ()
      ensures results == map[]
    {
      results := map[];
    }

    /** Files every phrase of one mined field under its path with the tinyId. */
    method Record(path: string, phrases: seq<string>, tinyId: string)
      modifies this
      ensures results == PE.AddAll(old(results), path, phrases, tinyId)
    {
      for k := 0 to |phrases|
        invariant results == PE.AddAll(old(results), path, phrases[..k], tinyId)
      {
        ghost var prefix := phrases[..k + 1];
        assert prefix[..k] == phrases[..k] && prefix[k] == phrases[k];
        results := PE.Add(results, path, phrases[k], tinyId);
      }
      assert phrases[..|phrases|] == phrases;
    }

    /** `collect_phrases_from_item` of the older extractor. */
    method Collect(item: Json, s: PE.Settings, path: string, lemmatize: bool)
      modifies this
      ensures results == PE.Tally(old(results), LegacyMiner(s), s.tinyId, LegacyItemMatches(item, s.names, path, lemmatize), false)
      decreases item, 1
    {
      match item
      case Obj(fs) => CollectFields(fs, s, path, lemmatize);
      case Arr(es) => CollectElems(es, s, ExtendPath(path, "*"));
      case _ =>
    }

    /** The loop over a dict's entries. */
    method CollectFields(fs: seq<Field>, s: PE.Settings, path: string, lemmatize: bool)
      modifies this
      ensures results == PE.Tally(old(results), LegacyMiner(s), s.tinyId, LegacyFieldMatches(fs, s.names, path, lemmatize), false)
      decreases fs, 0
    {
      for k := 0 to |fs|
        invariant results == PE.Tally(old(results), LegacyMiner(s), s.tinyId, LegacyFieldMatches(fs[..k], s.names, path, lemmatize), false)
      {
        var done := LegacyFieldMatches(fs[..k], s.names, path, lemmatize);
        assert fs[..k + 1][..k] == fs[..k];
        assert LegacyFieldMatches(fs[..k + 1], s.names, path, lemmatize) == done + LegacyFieldMatch(fs[k], s.names, path, lemmatize);
        CollectField(fs[k], s, path, lemmatize);
        PE.TallyAppend(old(results), LegacyMiner(s), s.tinyId, done, LegacyFieldMatch(fs[k], s.names, path, lemmatize), false);
      }
      assert fs[..|fs|] == fs;
    }

    /** One entry of a dict: mined if it is a named string, walked if it is a list or dict. */
    method CollectField(f: Field, s: PE.Settings, path: string, lemmatize: bool)
      modifies this
      ensures results == PE.Tally(old(results), LegacyMiner(s), s.tinyId, LegacyFieldMatch(f, s.names, path, lemmatize), false)
      decreases f, 1
    {
      var newPath := ExtendPath(path, f.key);
      if f.key in s.names && f.value.Str? {
        var phrases := LegacyExtractPhrases(s.nlp, f.value.s, s.minWords, s.removeStopwords, lemmatize);
        Record(newPath, phrases, s.tinyId);
        ghost var m := PE.Match(path, f.key, f.value.s, lemmatize);
        assert [m][..0] == [] && m.Path() == newPath;
        assert LegacyMiner(s)(m) == phrases;
      } else if f.value.Arr? {
        CollectElems(f.value.elems, s, newPath + ".*");
      } else if f.value.Obj? {
        Collect(f.value, s, newPath, true);
      }
    }

    /** The loop over a list's elements. */
    method CollectElems(es: seq<Json>, s: PE.Settings, path: string)
      modifies this
      ensures results == PE.Tally(old(results), LegacyMiner(s), s.tinyId, LegacyElemMatches(es, s.names, path), false)
      decreases es, 0
    {
      for k := 0 to |es|
        invariant results == PE.Tally(old(results), LegacyMiner(s), s.tinyId, LegacyElemMatches(es[..k], s.names, path), false)
      {
        var done := LegacyElemMatches(es[..k], s.names, path);
        assert es[..k + 1][..k] == es[..k];
        assert LegacyElemMatches(es[..k + 1], s.names, path) == done + LegacyItemMatches(es[k], s.names, path, true);
        Collect(es[k], s, path, true);
        PE.TallyAppend(old(results), LegacyMiner(s), s.tinyId, done, LegacyItemMatches(es[k], s.names, path, true), false);
      }
      assert es[..|es|] == es;
    }
  }

  // ---------------------------------------------------------------------------
  // collect_all_phrase_occurrences

  /** What the older walk mines from a record, called from the top with the `lemmatize` flag. */
  function LegacyWalk(names: set<string>, lemmatize: bool): Json -> seq<PE.Match> {
    item => LegacyItemMatches(item, names, "", lemmatize)
  }

  /** The phrases the older extractor gives a mined field, for the settings of a record with tinyId `tid`. */
  function LegacyMineFor(nlp: PE.Nlp, names: set<string>, minWords: int, removeStopwords: bool): string -> (PE.Match -> seq<string>) {
    tid => LegacyMiner(PE.Settings(nlp, names, tid, minWords, removeStopwords))
  }

  /** The per-path pruning of the older aggregator: per ID when `prune_subphrases` is set. */
  function LegacyStrategy(pruneSubphrases: bool): PX.Pruning {
    if pruneSubphrases then PX.PerId else PX.NoPruning
  }

  /** The older `collect_all_phrase_occurrences`: walk every record with a tinyId, then post-process each path. */
  method LegacyCollectAll(items: seq<Json>, fieldNames: seq<string>, nlp: PE.Nlp, minWords: int, removeStopwords: bool,
                          minIds: int, pruneSubphrases: bool, lemmatize: bool)
      returns (output: PX.Output)
    ensures var names := Elems(fieldNames);
      output == PX.Finished(PX.Gathered(items, LegacyWalk(names, lemmatize), LegacyMineFor(nlp, names, minWords, removeStopwords)),
                            LegacyStrategy(pruneSubphrases), minIds)
  {
    var names := Elems(fieldNames);
    var collector := new LegacyCollector();
    for k := 0 to |items|
      invariant collector.results == PX.Gathered(items[..k], LegacyWalk(names, lemmatize), LegacyMineFor(nlp, names, minWords, removeStopwords))
    {
      assert items[..k + 1][..k] == items[..k];
      var item := items[k];
      var tid := PX.TinyIdOf(item);
      if tid.Some? {
        var s := PE.Settings(nlp, names, tid.value, minWords, removeStopwords);
        assert LegacyMineFor(nlp, names, minWords, removeStopwords)(tid.value) == LegacyMiner(s);
        assert LegacyWalk(names, lemmatize)(item) == LegacyItemMatches(item, names, "", lemmatize);
        collector.Collect(item, s, "", lemmatize);
      }
    }
    assert items[..|items|] == items;
    output := PX.Finish(collector.results, LegacyStrategy(pruneSubphrases), minIds);
  }
}
