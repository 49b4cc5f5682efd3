/**
 * Phrase mining from the text fields of a record: a text is lower-cased,
 * tokenized, reduced to alphanumeric tokens, optionally lemmatized and
 * stripped of stopwords, and every run of at least `min_words` consecutive
 * words becomes a phrase. The recursive collector walks a record and files
 * each phrase under the dotted path of the field it came from, twice: once
 * with the record's tinyId and once with the field's verbatim text.
 *
 * The NLTK services (tokenizer, tagger, lemmatizer, stopword list) and
 * Python's `str.lower` and `str.isalnum` are parameters, gathered in `Nlp`.
 */
module PhraseExtraction {
  import opened Wrappers
  import opened Strings
  import opened Json
  import Seqs

  // ---------------------------------------------------------------------------
  // Parts of speech and the language services

  /** The four parts of speech WordNet's lemmatizer accepts. */
  datatype WordnetPos = Adj | Verb | Noun | Adv

  /** `get_wordnet_pos`: the WordNet part of speech a Penn Treebank tag starts with, if any. */
  function GetWordnetPos(tag: string): (r: Option<WordnetPos>)
    ensures r == Some(Adj) <==> "J" <= tag
    ensures r == Some(Verb) <==> "V" <= tag
    ensures r == Some(Noun) <==> "N" <= tag
    ensures r == Some(Adv) <==> "R" <= tag
    ensures r.None? <==> !("J" <= tag || "V" <= tag || "N" <= tag || "R" <= tag)
  {
    if |tag| == 0 then None
    else if tag[0] == 'J' then Some(Adj)
    else if tag[0] == 'V' then Some(Verb)
    else if tag[0] == 'N' then Some(Noun)
    else if tag[0] == 'R' then Some(Adv)
    else None
  }

  /**
   * The language services the extractor calls: `lower` is `str.lower`,
   * `tokenize` is `word_tokenize`, `isAlnumChar` is `str.isalnum` on one
   * character, `posTag(tokens, i)` is the tag `pos_tag(tokens)` gives the
   * `i`-th token, `lemmatize` is `WordNetLemmatizer.lemmatize` and
   * `stopwords` is NLTK's English stopword list.
   */
  datatype Nlp = Nlp(
    lower: string -> string,
    tokenize: string -> seq<string>,
    isAlnumChar: char -> bool,
    posTag: (seq<string>, nat) -> string,
    lemmatize: (string, WordnetPos) -> string,
    stopwords: set<string>)

  /**
   * What the word-count results rely on: alphanumeric characters are not
   * whitespace, and the lemma of a word is again a word.
   */
  ghost predicate ValidNlp(nlp: Nlp) {
    (forall c :: nlp.isAlnumChar(c) ==> !IsSpace(c))
    && (forall w, pos :: w != [] && NoSpace(w) ==> nlp.lemmatize(w, pos) != [] && NoSpace(nlp.lemmatize(w, pos)))
  }

  /** Python `w.isalnum()`: non-empty and alphanumeric throughout. */
  predicate IsAlnum(nlp: Nlp, w: string) {
    |w| > 0 && forall i | 0 <= i < |w| :: nlp.isAlnumChar(w[i])
  }

  // ---------------------------------------------------------------------------
  // Filtering word lists

  /** `[w for w in ws if keep(w)]`. */
  function Filter(ws: seq<string>, keep: string -> bool): (r: seq<string>)
    ensures forall w :: w in r <==> w in ws && keep(w)
  {
    if ws == [] then []
    else
      var t := Filter(ws[1..], keep);
      assert forall w :: w in ws <==> w == ws[0] || w in ws[1..];
      if keep(ws[0]) then [ws[0]] + t else t
  }

  /** Filtering keeps every kept word as often as it occurs, and no other. */
  lemma {:induction false} FilterCounts(ws: seq<string>, keep: string -> bool, w: string)
    ensures multiset(Filter(ws, keep))[w] == if keep(w) then multiset(ws)[w] else 0
  {
    if ws != [] {
      FilterCounts(ws[1..], keep, w);
      assert ws == [ws[0]] + ws[1..];
      assert multiset(ws) == multiset{ws[0]} + multiset(ws[1..]);
    }
  }

  /** Filtering keeps the order of what it keeps: it distributes over concatenation. */
  lemma {:induction false} FilterAppend(a: seq<string>, b: seq<string>, keep: string -> bool)
    ensures Filter(a + b, keep) == Filter(a, keep) + Filter(b, keep)
  {
    if a == [] {
      assert a + b == b;
    } else {
      var ab := a + b;
      assert ab[0] == a[0] && ab[1..] == a[1..] + b;
      FilterAppend(a[1..], b, keep);
      var t := Filter(a[1..], keep);
      if keep(a[0]) {
        assert Filter(ab, keep) == [a[0]] + Filter(a[1..] + b, keep);
        assert Filter(a, keep) == [a[0]] + t;
      } else {
        assert Filter(ab, keep) == Filter(a[1..] + b, keep);
        assert Filter(a, keep) == t;
      }
    }
  }

  /** `rm_stopwords`: the words that are not stopwords, in order. */
  function RmStopwords(nlp: Nlp, words: seq<string>): (r: seq<string>)
    ensures forall w :: w in r <==> w in words && w !in nlp.stopwords
  {
    Filter(words, w => w !in nlp.stopwords)
  }

  /** Removing stopwords keeps every other word as often as it occurs. */
  lemma RmStopwordsCounts(nlp: Nlp, words: seq<string>, w: string)
    ensures multiset(RmStopwords(nlp, words))[w] == if w in nlp.stopwords then 0 else multiset(words)[w]
  {
    FilterCounts(words, w => w !in nlp.stopwords, w);
  }

  /** `tokenize_text`: the alphanumeric tokens of the lower-cased text, in order. */
  function TokenizeText(nlp: Nlp, text: string): (r: seq<string>)
    ensures forall w :: w in r <==> w in nlp.tokenize(nlp.lower(text)) && IsAlnum(nlp, w)
    ensures forall i | 0 <= i < |r| :: IsAlnum(nlp, r[i])
  {
    var r := Filter(nlp.tokenize(nlp.lower(text)), w => IsAlnum(nlp, w));
    assert forall i | 0 <= i < |r| :: r[i] in r;
    r
  }

  // ---------------------------------------------------------------------------
  // Lemmatization

  /** The lemma `make_lemma` gives the `i`-th token: lemmatized when its tag maps to WordNet, else the token itself. */
  function LemmaOf(nlp: Nlp, tokens: seq<string>, i: nat): string
    requires i < |tokens|
  {
    match GetWordnetPos(nlp.posTag(tokens, i))
    case Some(pos) => nlp.lemmatize(tokens[i], pos)
    case None => tokens[i]
  }

  /** The lemmas of all tokens, position by position. */
  function Lemmas(nlp: Nlp, tokens: seq<string>): (r: seq<string>)
    ensures |r| == |tokens|
    ensures forall i | 0 <= i < |tokens| && GetWordnetPos(nlp.posTag(tokens, i)).None? :: r[i] == tokens[i]
  {
    seq(|tokens|, i requires 0 <= i < |tokens| => LemmaOf(nlp, tokens, i))
  }

  /** `make_lemma`: one lemma per token; `removeStopwords` is accepted and ignored. */
  method MakeLemma(nlp: Nlp, tokens: seq<string>, removeStopwords: bool) returns (words: seq<string>)
    ensures words == Lemmas(nlp, tokens)
  {
    words := [];
    for i := 0 to |tokens|
      invariant |words| == i
      invariant forall j | 0 <= j < i :: words[j] == LemmaOf(nlp, tokens, j)
    {
      var word;
      match GetWordnetPos(nlp.posTag(tokens, i)) {
        case Some(pos) => word := nlp.lemmatize(tokens[i], pos);
        case None => word := tokens[i];
      }
      words := words + [word];
    }
  }

  /** The words phrases are built from: tokens, lemmatized if asked, then without stopwords if asked. */
  function CleanWords(nlp: Nlp, text: string, removeStopwords: bool, lemmatize: bool): seq<string> {
    var tokens := TokenizeText(nlp, text);
    var words := if lemmatize then Lemmas(nlp, tokens) else tokens;
    if removeStopwords then RmStopwords(nlp, words) else words
  }

  /** Under a well-behaved `Nlp` every clean word is a non-empty word without whitespace. */
  lemma CleanWordsAreWords(nlp: Nlp, text: string, removeStopwords: bool, lemmatize: bool)
    requires ValidNlp(nlp)
    ensures forall i | 0 <= i < |CleanWords(nlp, text, removeStopwords, lemmatize)| ::
      CleanWords(nlp, text, removeStopwords, lemmatize)[i] != []
      && NoSpace(CleanWords(nlp, text, removeStopwords, lemmatize)[i])
  {
    var tokens := TokenizeText(nlp, text);
    forall i | 0 <= i < |tokens| ensures tokens[i] != [] && NoSpace(tokens[i]) {
      assert IsAlnum(nlp, tokens[i]);
    }
    var words := if lemmatize then Lemmas(nlp, tokens) else tokens;
    assert forall i | 0 <= i < |words| :: words[i] != [] && NoSpace(words[i]) by {
      if lemmatize {
        forall i | 0 <= i < |words| ensures words[i] != [] && NoSpace(words[i]) {
          assert words[i] == LemmaOf(nlp, tokens, i);
        }
      }
    }
    var r := CleanWords(nlp, text, removeStopwords, lemmatize);
    forall i | 0 <= i < |r| ensures r[i] != [] && NoSpace(r[i]) {
      assert r[i] in words;
    }
  }

  // ---------------------------------------------------------------------------
  // Phrases: the windows of consecutive words

  /** Clamps a Python slice bound into `0..n`, counting a negative bound from the end. */
  function SliceBound(x: int, n: nat): (r: nat)
    ensures r <= n
    ensures 0 <= x <= n ==> r == x
  {
    if x < 0 then (if x + n < 0 then 0 else x + n) else if x > n then n else x
  }

  /** Python `s[a:b]`: negative bounds count from the end, bounds past the end are clipped. */
  function PySlice(s: seq<string>, a: int, b: int): (r: seq<string>)
    ensures 0 <= a <= b <= |s| ==> r == s[a..b]
    ensures |r| <= |s|
  {
    var lo := SliceBound(a, |s|);
    var hi := SliceBound(b, |s|);
    if lo < hi then s[lo..hi] else []
  }

  /** One phrase: `" ".join(words[i : i + size])`. */
  function Window(words: seq<string>, i: int, size: int): string {
    Join(PySlice(words, i, i + size), " ")
  }

  /** The windows of one size starting at each `i` in `range(count)`, in order. */
  function Windows(words: seq<string>, size: int, count: int): (r: seq<string>)
    ensures |r| == if count <= 0 then 0 else count
    decreases count
  {
    if count <= 0 then []
    else Windows(words, size, count - 1) + [Window(words, count - 1, size)]
  }

  /** Appending the window at `count` extends the windows of the first `count` positions. */
  lemma WindowsStep(phrases: seq<string>, words: seq<string>, size: int, count: nat)
    ensures (phrases + Windows(words, size, count)) + [Window(words, count, size)] == phrases + Windows(words, size, count + 1)
  {
    var w := Windows(words, size, count);
    var x := Window(words, count, size);
    assert Windows(words, size, count + 1) == w + [x];
    assert (phrases + w) + [x] == phrases + (w + [x]);
  }

  /** The `i`-th window of a size starts at word `i`. */
  lemma {:induction false} WindowsAt(words: seq<string>, size: int, count: int, i: int)
    requires 0 <= i < count
    ensures Windows(words, size, count)[i] == Window(words, i, size)
    decreases count
  {
    if i < count - 1 {
      WindowsAt(words, size, count - 1, i);
    }
  }

  /** A window of a size is the window at one of the starting positions: `i` is that position. */
  lemma {:induction false} WindowsMember(words: seq<string>, size: int, count: int, p: string) returns (i: int)
    requires p in Windows(words, size, count)
    ensures 0 <= i < count && p == Window(words, i, size)
    decreases count
  {
    if p == Window(words, count - 1, size) {
      i := count - 1;
    } else {
      i := WindowsMember(words, size, count - 1, p);
    }
  }

  /** The windows of every size in `range(lo, hi)`, smallest size first. */
  function NGramsBelow(words: seq<string>, lo: int, hi: int): seq<string>
    decreases hi - lo
  {
    if hi <= lo then []
    else NGramsBelow(words, lo, hi - 1) + Windows(words, hi - 1, |words| - (hi - 1) + 1)
  }

  lemma NGramsBelowStep(words: seq<string>, lo: int, hi: int)
    requires lo <= hi
    ensures NGramsBelow(words, lo, hi + 1) == NGramsBelow(words, lo, hi) + Windows(words, hi, |words| - hi + 1)
  {
  }

  /** The phrases of `extract_phrases`: every window of at least `minWords` words. */
  function NGrams(words: seq<string>, minWords: int): (r: seq<string>)
    ensures |words| < minWords ==> r == []
  {
    NGramsBelow(words, minWords, |words| + 1)
  }

  /** With `n` words there are `(n - m + 1)(n - m + 2) / 2` phrases of at least `m` words. */
  lemma NGramsCount(words: seq<string>, minWords: int)
    requires minWords <= |words| + 1
    ensures 2 * |NGrams(words, minWords)| == (|words| - minWords + 1) * (|words| - minWords + 2)
  {
    NGramsBelowCount(words, minWords, |words| + 1);
    WindowCountClosed(|words|, minWords, |words| + 1);
  }

  /** How many windows the sizes in `range(lo, hi)` give over `n` words: `n - size + 1` per size. */
  function WindowCount(n: nat, lo: int, hi: int): int
    decreases hi - lo
  {
    if hi <= lo then 0 else WindowCount(n, lo, hi - 1) + (n - (hi - 1) + 1)
  }

  lemma {:induction false} NGramsBelowCount(words: seq<string>, lo: int, hi: int)
    requires lo <= hi <= |words| + 1
    ensures |NGramsBelow(words, lo, hi)| == WindowCount(|words|, lo, hi)
    decreases hi - lo
  {
    if hi > lo {
      NGramsBelowCount(words, lo, hi - 1);
    }
  }

  lemma {:induction false} WindowCountClosed(n: nat, lo: int, hi: int)
    requires lo <= hi
    ensures 2 * WindowCount(n, lo, hi) == (hi - lo) * (2 * (n + 1) - lo - hi + 1)
    decreases hi - lo
  {
    if hi > lo {
      WindowCountClosed(n, lo, hi - 1);
      var k := hi - lo;
      var c := 2 * (n + 1) - lo - hi + 2;
      assert (k - 1) * c == k * c - c;
      assert k * (c - 1) == k * c - k;
    }
  }

  /** Every phrase is a window of a size in `range(lo, hi)` that lies inside the word list. */
  lemma {:induction false} NGramsBelowMember(words: seq<string>, lo: int, hi: int, p: string) returns (size: int, i: int)
    requires p in NGramsBelow(words, lo, hi)
    ensures lo <= size < hi && 0 <= i <= |words| - size && p == Window(words, i, size)
    decreases hi - lo
  {
    var prev := NGramsBelow(words, lo, hi - 1);
    var count := |words| - (hi - 1) + 1;
    assert NGramsBelow(words, lo, hi) == prev + Windows(words, hi - 1, count);
    Seqs.InConcat(prev, Windows(words, hi - 1, count), p);
    if p in prev {
      size, i := NGramsBelowMember(words, lo, hi - 1, p);
    } else {
      size := hi - 1;
      i := WindowsMember(words, size, count, p);
    }
  }

  /** A window of `size >= 1` words that lies inside the list has exactly `size` words. */
  lemma WindowWordCount(words: seq<string>, i: int, size: int)
    requires forall j | 0 <= j < |words| :: words[j] != [] && NoSpace(words[j])
    requires 0 <= i && 1 <= size && i + size <= |words|
    ensures WordCount(Window(words, i, size)) == size
  {
    var part := words[i..i + size];
    assert Window(words, i, size) == Join(part, " ");
    assert forall j | 0 <= j < |part| :: part[j] == words[i + j];
    WordsOfJoin(part);
  }

  /**
   * The phrases of a text have between `minWords` and all-of-the-words
   * words each, when `minWords` is at least 1.
   */
  lemma PhraseWordCounts(nlp: Nlp, text: string, minWords: int, removeStopwords: bool, lemmatize: bool)
    requires ValidNlp(nlp) && 1 <= minWords
    ensures var words := CleanWords(nlp, text, removeStopwords, lemmatize);
      forall p | p in NGrams(words, minWords) :: minWords <= WordCount(p) <= |words|
  {
    var words := CleanWords(nlp, text, removeStopwords, lemmatize);
    CleanWordsAreWords(nlp, text, removeStopwords, lemmatize);
    forall p | p in NGrams(words, minWords) ensures minWords <= WordCount(p) <= |words| {
      var size, i := NGramsBelowMember(words, minWords, |words| + 1, p);
      WindowWordCount(words, i, size);
    }
  }

  /** `extract_phrases`: the windows of the cleaned words, by increasing size, then by position. */
  method ExtractPhrases(nlp: Nlp, text: string, minWords: int, removeStopwords: bool, lemmatize: bool)
    returns (phrases: seq<string>)
    ensures phrases == NGrams(CleanWords(nlp, text, removeStopwords, lemmatize), minWords)
  {
    var tokens := TokenizeText(nlp, text);
    var words;
    if lemmatize {
      words := MakeLemma(nlp, tokens, removeStopwords);
    } else {
      words := tokens;
    }
    if removeStopwords {
      words := RmStopwords(nlp, words);
    }
    phrases := JoinWindows(words, minWords);
  }

  /** The loops closing `extract_phrases`: every window of `size` words, for `size` from `minWords` up. */
  method JoinWindows(words: seq<string>, minWords: int) returns (phrases: seq<string>)
    ensures phrases == NGrams(words, minWords)
  {
    phrases := [];
    var size := minWords;
    while size <= |words|
      invariant minWords <= size
      invariant size <= |words| + 1 || size == minWords
      invariant phrases == NGramsBelow(words, minWords, size)
      decreases |words| - size
    {
      phrases := AppendWindows(phrases, words, size);
      NGramsBelowStep(words, minWords, size);
      size := size + 1;
    }
  }

  /** The inner loop: appends the window of `size` words at every start position, left to right. */
  method AppendWindows(phrases: seq<string>, words: seq<string>, size: int) returns (r: seq<string>)
    ensures r == phrases + Windows(words, size, |words| - size + 1)
  {
    r := phrases;
    var i := 0;
    while i < |words| - size + 1
      invariant 0 <= i && (i <= |words| - size + 1 || i == 0)
      invariant r == phrases + Windows(words, size, i)
    {
      // `" ".join(words[i:i + size])`
      var phrase := Window(words, i, size);
      WindowsStep(phrases, words, size, i);
      r := r + [phrase];
      i := i + 1;
    }
  }

  // ---------------------------------------------------------------------------
  // The nested phrase maps: path -> phrase -> set of labels

  /** `defaultdict(lambda: defaultdict(set))` keyed by field path, then phrase. */
  type PhraseMap = map<string, map<string, set<string>>>

  /** `x` is filed under `path` and `phrase`. */
  predicate Holds(d: PhraseMap, path: string, phrase: string, x: string) {
    path in d && phrase in d[path] && x in d[path][phrase]
  }

  /** No path without phrases and no phrase without labels, as a defaultdict filled only by `add` keeps it. */
  predicate WellFormed(d: PhraseMap) {
    forall path | path in d :: |d[path]| > 0 && forall phrase | phrase in d[path] :: |d[path][phrase]| > 0
  }

  /** `d[path][phrase].add(x)`. */
  function Add(d: PhraseMap, path: string, phrase: string, x: string): (r: PhraseMap)
    ensures path in r && phrase in r[path] && x in r[path][phrase]
  {
    var inner := if path in d then d[path] else map[];
    var labels := if phrase in inner then inner[phrase] else {};
    d[path := inner[phrase := labels + {x}]]
  }

  /** Adding files `x` under `path` and `phrase` and leaves every other entry as it was. */
  lemma AddHolds(d: PhraseMap, path: string, phrase: string, x: string, path': string, phrase': string, y: string)
    ensures Holds(Add(d, path, phrase, x), path', phrase', y) <==>
      Holds(d, path', phrase', y) || (path' == path && phrase' == phrase && y == x)
  {
  }

  /** Adding never leaves an empty entry behind. */
  lemma AddWellFormed(d: PhraseMap, path: string, phrase: string, x: string)
    requires WellFormed(d)
    ensures WellFormed(Add(d, path, phrase, x))
  {
  }

  /** `for phrase in phrases: d[path][phrase].add(x)`. */
  function AddAll(d: PhraseMap, path: string, phrases: seq<string>, x: string): PhraseMap
    decreases |phrases|
  {
    if phrases == [] then d
    else Add(AddAll(d, path, phrases[..|phrases| - 1], x), path, phrases[|phrases| - 1], x)
  }

  /** Adding a list of phrases files `x` under each of them and under nothing else. */
  lemma {:induction false} AddAllHolds(d: PhraseMap, path: string, phrases: seq<string>, x: string,
                                       path': string, phrase': string, y: string)
    ensures Holds(AddAll(d, path, phrases, x), path', phrase', y) <==>
      Holds(d, path', phrase', y) || (path' == path && phrase' in phrases && y == x)
    decreases |phrases|
  {
    if phrases != [] {
      var init := phrases[..|phrases| - 1];
      AddAllHolds(d, path, init, x, path', phrase', y);
      AddHolds(AddAll(d, path, init, x), path, phrases[|phrases| - 1], x, path', phrase', y);
      assert phrases == init + [phrases[|phrases| - 1]];
    }
  }

  // ---------------------------------------------------------------------------
  // The walk: which fields of a record are mined, and how

  /**
   * One mined field: the dotted path of the dict holding it, its key, its
   * text, and the `lemmatize` argument of the call that met it.
   */
  datatype Match = Match(parent: string, key: string, text: string, lemmatize: bool) {
    /** The field's own dotted path, under which its phrases are filed. */
    function Path(): string {
      ExtendPath(parent, key)
    }
  }

  /**
   * The fields `collect_phrases_from_item(item, names, ..., path, ...,
   * lemmatize, verbatim)` mines, in the order it meets them. A list passes
   * its `verbatim` argument on in the `lemmatize` position; a list or dict
   * met as a field value is walked with the default flags (lemmatize on).
   */
  function ItemMatches(item: Json, names: set<string>, path: string, lemmatize: bool, verbatim: bool): (r: seq<Match>)
    ensures forall i | 0 <= i < |r| :: r[i].key in names && path <= r[i].parent
    decreases item
  {
    match item
    case Obj(fs) => FieldMatches(fs, names, path, lemmatize)
    case Arr(es) =>
      var r := ElemMatches(es, names, ExtendPath(path, "*"), verbatim, false);
      assert path <= ExtendPath(path, "*");
      r
    case _ => []
  }

  /** The fields mined from a dict's entries, entry by entry. */
  function FieldMatches(fs: seq<Field>, names: set<string>, path: string, lemmatize: bool): (r: seq<Match>)
    ensures forall i | 0 <= i < |r| :: r[i].key in names && path <= r[i].parent
    decreases fs
  {
    if fs == [] then []
    else FieldMatches(fs[..|fs| - 1], names, path, lemmatize) + FieldMatch(fs[|fs| - 1], names, path, lemmatize)
  }

  /** The fields mined from one entry: the entry itself if it is a named string field, else its contents. */
  function FieldMatch(f: Field, names: set<string>, path: string, lemmatize: bool): (r: seq<Match>)
    ensures forall i | 0 <= i < |r| :: r[i].key in names && path <= r[i].parent
    decreases f
  {
    var newPath := ExtendPath(path, f.key);
    assert path <= newPath;
    if f.key in names && f.value.Str? then [Match(path, f.key, f.value.s, lemmatize)]
    else if f.value.Arr? then
      var r := ElemMatches(f.value.elems, names, newPath + ".*", true, false);
      assert newPath <= newPath + ".*";
      r
    else if f.value.Obj? then ItemMatches(f.value, names, newPath, true, false)
    else []
  }

  /** The fields mined from a list's elements, all walked under the same path. */
  function ElemMatches(es: seq<Json>, names: set<string>, path: string, lemmatize: bool, verbatim: bool): (r: seq<Match>)
    ensures forall i | 0 <= i < |r| :: r[i].key in names && path <= r[i].parent
    decreases es
  {
    if es == [] then []
    else ElemMatches(es[..|es| - 1], names, path, lemmatize, verbatim) + ItemMatches(es[|es| - 1], names, path, lemmatize, verbatim)
  }

  /** A list of strings is never mined, even under a named key. */
  lemma {:induction false} StringListIgnored(es: seq<Json>, names: set<string>, path: string, lemmatize: bool, verbatim: bool)
    requires forall i | 0 <= i < |es| :: es[i].Str?
    ensures ElemMatches(es, names, path, lemmatize, verbatim) == []
    decreases es
  {
    if es != [] {
      StringListIgnored(es[..|es| - 1], names, path, lemmatize, verbatim);
    }
  }

  /** A named string field at the top of a dict is mined with the caller's `lemmatize` flag. */
  lemma TopFieldKeepsFlag(key: string, text: string, lemmatize: bool)
    ensures ItemMatches(Obj([Field(key, Str(text))]), {key}, "", lemmatize, false)
      == [Match("", key, text, lemmatize)]
  {
    var fs := [Field(key, Str(text))];
    assert fs[..0] == [];
    assert FieldMatch(fs[0], {key}, "", lemmatize) == [Match("", key, text, lemmatize)];
    assert FieldMatches(fs, {key}, "", lemmatize) == [] + [Match("", key, text, lemmatize)];
  }

  /** A named field one dict further down is always mined with lemmatization on, whatever the caller asked. */
  lemma NestedDictLemmatizes(key: string, text: string, lemmatize: bool)
    ensures ItemMatches(Obj([Field("meta", Obj([Field(key, Str(text))]))]), {key}, "", lemmatize, false)
      == [Match("meta", key, text, true)]
  {
    var inner := [Field(key, Str(text))];
    var outer := [Field("meta", Obj(inner))];
    assert inner[..0] == [] && outer[..0] == [];
    assert FieldMatch(inner[0], {key}, "meta", true) == [Match("meta", key, text, true)];
    assert FieldMatches(inner, {key}, "meta", true) == [] + [Match("meta", key, text, true)];
    assert FieldMatch(outer[0], {key}, "", lemmatize) == ItemMatches(Obj(inner), {key}, "meta", true, false);
    assert FieldMatches(outer, {key}, "", lemmatize) == [] + FieldMatch(outer[0], {key}, "", lemmatize);
  }

  /** A dict inside a list that was walked directly takes the list's `verbatim` flag as its `lemmatize` flag. */
  lemma ListPassesVerbatim(key: string, text: string, lemmatize: bool, verbatim: bool)
    ensures ItemMatches(Arr([Obj([Field(key, Str(text))])]), {key}, "", lemmatize, verbatim)
      == [Match("*", key, text, verbatim)]
  {
    var fs := [Field(key, Str(text))];
    var es := [Obj(fs)];
    assert fs[..0] == [] && es[..0] == [];
    assert FieldMatch(fs[0], {key}, "*", verbatim) == [Match("*", key, text, verbatim)];
    assert FieldMatches(fs, {key}, "*", verbatim) == [] + [Match("*", key, text, verbatim)];
    assert ElemMatches(es, {key}, "*", verbatim, false) == [] + ItemMatches(es[0], {key}, "*", verbatim, false);
  }

  // ---------------------------------------------------------------------------
  // What the walk files

  /** The parameters every call of the walk passes on unchanged. */
  datatype Settings = Settings(nlp: Nlp, names: set<string>, tinyId: string, minWords: int, removeStopwords: bool)

  /** The phrases extracted from a mined field. */
  function MatchPhrases(s: Settings, m: Match): seq<string> {
    NGrams(CleanWords(s.nlp, m.text, s.removeStopwords, m.lemmatize), s.minWords)
  }

  /** `MatchPhrases` for fixed settings, as a function of the mined field. */
  function Miner(s: Settings): Match -> seq<string> {
    m => MatchPhrases(s, m)
  }

  /** What a mined field's phrases are filed with: the field's text in the verbatim map, else the tinyId. */
  function Label(tinyId: string, m: Match, byText: bool): string {
    if byText then m.text else tinyId
  }

  /** `d` after the phrases `mine` gives every match are filed, match by match. */
  function Tally(d: PhraseMap, mine: Match -> seq<string>, tinyId: string, ms: seq<Match>, byText: bool): PhraseMap
    decreases |ms|
  {
    if ms == [] then d
    else
      var m := ms[|ms| - 1];
      AddAll(Tally(d, mine, tinyId, ms[..|ms| - 1], byText), m.Path(), mine(m), Label(tinyId, m, byText))
  }

  /** Filing two runs of matches one after the other is filing their concatenation. */
  lemma {:induction false} TallyAppend(d: PhraseMap, mine: Match -> seq<string>, tinyId: string,
                                       a: seq<Match>, b: seq<Match>, byText: bool)
    ensures Tally(d, mine, tinyId, a + b, byText) == Tally(Tally(d, mine, tinyId, a, byText), mine, tinyId, b, byText)
    decreases |b|
  {
    if b == [] {
      assert a + b == a;
    } else {
      var init := b[..|b| - 1];
      TallyAppend(d, mine, tinyId, a, init, byText);
      var ab := a + b;
      assert ab[..|ab| - 1] == a + init && ab[|ab| - 1] == b[|b| - 1];
    }
  }

  /**
   * After filing, a label sits under a path and a phrase exactly when it
   * did before or some match at that path produced that phrase and carries
   * that label: nothing is removed and nothing unasked is added.
   */
  lemma {:induction false} TallyHolds(d: PhraseMap, mine: Match -> seq<string>, tinyId: string, ms: seq<Match>, byText: bool,
                                      path: string, phrase: string, x: string)
    ensures Holds(Tally(d, mine, tinyId, ms, byText), path, phrase, x) <==>
      Holds(d, path, phrase, x)
      || exists i | 0 <= i < |ms| :: ms[i].Path() == path && phrase in mine(ms[i]) && x == Label(tinyId, ms[i], byText)
    decreases |ms|
  {
    if ms != [] {
      var init := ms[..|ms| - 1];
      var m := ms[|ms| - 1];
      TallyHolds(d, mine, tinyId, init, byText, path, phrase, x);
      AddAllHolds(Tally(d, mine, tinyId, init, byText), m.Path(), mine(m), Label(tinyId, m, byText), path, phrase, x);
      if exists i | 0 <= i < |ms| :: ms[i].Path() == path && phrase in mine(ms[i]) && x == Label(tinyId, ms[i], byText) {
        var i :| 0 <= i < |ms| && ms[i].Path() == path && phrase in mine(ms[i]) && x == Label(tinyId, ms[i], byText);
        if i < |ms| - 1 {
          assert init[i] == ms[i];
        }
      }
      if exists i | 0 <= i < |init| :: init[i].Path() == path && phrase in mine(init[i]) && x == Label(tinyId, init[i], byText) {
        var i :| 0 <= i < |init| && init[i].Path() == path && phrase in mine(init[i]) && x == Label(tinyId, init[i], byText);
        assert ms[i] == init[i];
      }
    }
  }

  lemma {:induction false} AddAllWellFormed(d: PhraseMap, path: string, phrases: seq<string>, x: string)
    requires WellFormed(d)
    ensures WellFormed(AddAll(d, path, phrases, x))
    decreases |phrases|
  {
    if phrases != [] {
      AddAllWellFormed(d, path, phrases[..|phrases| - 1], x);
      AddWellFormed(AddAll(d, path, phrases[..|phrases| - 1], x), path, phrases[|phrases| - 1], x);
    }
  }

  /** Filing keeps a map free of empty entries, so every phrase it holds has at least one label. */
  lemma {:induction false} TallyWellFormed(d: PhraseMap, mine: Match -> seq<string>, tinyId: string, ms: seq<Match>, byText: bool)
    requires WellFormed(d)
    ensures WellFormed(Tally(d, mine, tinyId, ms, byText))
    decreases |ms|
  {
    if ms != [] {
      var m := ms[|ms| - 1];
      TallyWellFormed(d, mine, tinyId, ms[..|ms| - 1], byText);
      AddAllWellFormed(Tally(d, mine, tinyId, ms[..|ms| - 1], byText), m.Path(), mine(m), Label(tinyId, m, byText));
    }
  }

  // ---------------------------------------------------------------------------
  // The collector

  /** The two phrase maps `collect_phrases_from_item` fills in place. */
  class Collector {
    /** path -> phrase -> tinyIds of the records the phrase came from. */
    var results: PhraseMap
    /** path -> phrase -> the verbatim texts the phrase came from. */
    var verbatimResults: PhraseMap

    /** Two empty maps, as when the caller passes neither. */
    constructor ()
      ensures results == map[] && verbatimResults == map[]
    {
      results := map[];
      verbatimResults := map[];
    }

    /** Files every phrase of one mined field under its path, with the tinyId and with the field's text. */
    method Record(path: string, phrases: seq<string>, tinyId: string, text: string)
      modifies this
      ensures results == AddAll(old(results), path, phrases, tinyId)
      ensures verbatimResults == AddAll(old(verbatimResults), path, phrases, text)
    {
      for k := 0 to |phrases|
        invariant results == AddAll(old(results), path, phrases[..k], tinyId)
        invariant verbatimResults == AddAll(old(verbatimResults), path, phrases[..k], text)
      {
        ghost var prefix := phrases[..k + 1];
        assert prefix[..k] == phrases[..k] && prefix[k] == phrases[k];
        assert AddAll(old(results), path, prefix, tinyId) == Add(results, path, phrases[k], tinyId);
        assert AddAll(old(verbatimResults), path, prefix, text) == Add(verbatimResults, path, phrases[k], text);
        results := Add(results, path, phrases[k], tinyId);
        verbatimResults := Add(verbatimResults, path, phrases[k], text);
      }
      assert phrases[..|phrases|] == phrases;
    }

    /** `collect_phrases_from_item`: files the phrases of every field the walk mines. */
    method Collect(item: Json, s: Settings, path: string, lemmatize: bool, verbatim: bool)
      modifies this
      ensures results == Tally(old(results), Miner(s), s.tinyId, ItemMatches(item, s.names, path, lemmatize, verbatim), false)
      ensures verbatimResults == Tally(old(verbatimResults), Miner(s), s.tinyId, ItemMatches(item, s.names, path, lemmatize, verbatim), true)
      decreases item, 1
    {
      match item
      case Obj(fs) => CollectFields(fs, s, path, lemmatize);
      case Arr(es) => CollectElems(es, s, ExtendPath(path, "*"), verbatim, false);
      case _ =>
    }

    /** The loop over a dict's entries. */
    method CollectFields(fs: seq<Field>, s: Settings, path: string, lemmatize: bool)
      modifies this
      ensures results == Tally(old(results), Miner(s), s.tinyId, FieldMatches(fs, s.names, path, lemmatize), false)
      ensures verbatimResults == Tally(old(verbatimResults), Miner(s), s.tinyId, FieldMatches(fs, s.names, path, lemmatize), true)
      decreases fs, 0
    {
      for k := 0 to |fs|
        invariant results == Tally(old(results), Miner(s), s.tinyId, FieldMatches(fs[..k], s.names, path, lemmatize), false)
        invariant verbatimResults == Tally(old(verbatimResults), Miner(s), s.tinyId, FieldMatches(fs[..k], s.names, path, lemmatize), true)
      {
        var done := FieldMatches(fs[..k], s.names, path, lemmatize);
        assert fs[..k + 1][..k] == fs[..k];
        assert FieldMatches(fs[..k + 1], s.names, path, lemmatize) == done + FieldMatch(fs[k], s.names, path, lemmatize);
        CollectField(fs[k], s, path, lemmatize);
        TallyAppend(old(results), Miner(s), s.tinyId, done, FieldMatch(fs[k], s.names, path, lemmatize), false);
        TallyAppend(old(verbatimResults), Miner(s), s.tinyId, done, FieldMatch(fs[k], s.names, path, lemmatize), true);
      }
      assert fs[..|fs|] == fs;
    }

    /** One entry of a dict: mined if it is a named string, walked if it is a list or dict. */
    method CollectField(f: Field, s: Settings, path: string, lemmatize: bool)
      modifies this
      ensures results == Tally(old(results), Miner(s), s.tinyId, FieldMatch(f, s.names, path, lemmatize), false)
      ensures verbatimResults == Tally(old(verbatimResults), Miner(s), s.tinyId, FieldMatch(f, s.names, path, lemmatize), true)
      decreases f, 1
    {
      var newPath := ExtendPath(path, f.key);
      if f.key in s.names && f.value.Str? {
        var phrases := ExtractPhrases(s.nlp, f.value.s, s.minWords, s.removeStopwords, lemmatize);
        Record(newPath, phrases, s.tinyId, f.value.s);
        ghost var m := Match(path, f.key, f.value.s, lemmatize);
        assert [m][..0] == [] && m.Path() == newPath;
        assert Miner(s)(m) == phrases;
      } else if f.value.Arr? {
        CollectElems(f.value.elems, s, newPath + ".*", true, false);
      } else if f.value.Obj? {
        Collect(f.value, s, newPath, true, false);
      }
    }

    /** The loop over a list's elements. */
    method CollectElems(es: seq<Json>, s: Settings, path: string, lemmatize: bool, verbatim: bool)
      modifies this
      ensures results == Tally(old(results), Miner(s), s.tinyId, ElemMatches(es, s.names, path, lemmatize, verbatim), false)
      ensures verbatimResults == Tally(old(verbatimResults), Miner(s), s.tinyId, ElemMatches(es, s.names, path, lemmatize, verbatim), true)
      decreases es, 0
    {
      for k := 0 to |es|
        invariant results == Tally(old(results), Miner(s), s.tinyId, ElemMatches(es[..k], s.names, path, lemmatize, verbatim), false)
        invariant verbatimResults == Tally(old(verbatimResults), Miner(s), s.tinyId, ElemMatches(es[..k], s.names, path, lemmatize, verbatim), true)
      {
        var done := ElemMatches(es[..k], s.names, path, lemmatize, verbatim);
        assert es[..k + 1][..k] == es[..k];
        assert ElemMatches(es[..k + 1], s.names, path, lemmatize, verbatim) == done + ItemMatches(es[k], s.names, path, lemmatize, verbatim);
        Collect(es[k], s, path, lemmatize, verbatim);
        TallyAppend(old(results), Miner(s), s.tinyId, done, ItemMatches(es[k], s.names, path, lemmatize, verbatim), false);
        TallyAppend(old(verbatimResults), Miner(s), s.tinyId, done, ItemMatches(es[k], s.names, path, lemmatize, verbatim), true);
      }
      assert es[..|es|] == es;
    }
  }
}
