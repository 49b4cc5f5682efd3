/**
 * `utils/designation_parser.py`: picking a record's name and question text
 * from its list of designations, by the tags each designation carries.
 */
module DesignationParser {
  import opened Wrappers
  import opened Strings
  import opened Json

  /**
   * A compiled pattern made of literal alternatives: `search` succeeds when
   * one of them occurs in the text (`Alternat(?:e|ive) Question Text` has
   * two alternatives, every other pattern one).
   */
  datatype Pattern = Pattern(alts: seq<string>)

  /** `pattern.search(tag)` is truthy. */
  predicate Search(p: Pattern, tag: string) {
    exists k | 0 <= k < |p.alts| :: IsSubstring(p.alts[k], tag)
  }

  const QuestionPatterns: seq<Pattern> := [
    Pattern(["Question Text"]),
    Pattern(["Alternate Question Text", "Alternative Question Text"]),
    Pattern(["Question"])
  ]

  const NamePatterns: seq<Pattern> := [
    Pattern(["Primary Name"]),
    Pattern(["Long Common Name"]),
    Pattern(["Short Name"]),
    Pattern(["Shortname"])
  ]

  /** Some pattern of `patterns` is found in `tag`. */
  predicate AnySearch(patterns: seq<Pattern>, tag: string) {
    exists p | 0 <= p < |patterns| :: Search(patterns[p], tag)
  }

  /** `designation.get("designation")`, None (`Null`) when the key is missing. */
  function DesignationOf(d: seq<Field>): Json {
    match Get(d, "designation")
    case Some(v) => v
    case None => Null
  }

  /** Some tag matches some pattern. */
  predicate TagMatches(tags: seq<string>, patterns: seq<Pattern>) {
    exists t | 0 <= t < |tags| :: AnySearch(patterns, tags[t])
  }

  /** `match_by_patterns`: the designation's text when some tag matches some pattern, else None. */
  function MatchByPatterns(tags: seq<string>, d: seq<Field>, patterns: seq<Pattern>): (r: Json)
    ensures TagMatches(tags, patterns) ==> r == DesignationOf(d)
    ensures !TagMatches(tags, patterns) ==> r == Null
  {
    if tags == [] then Null
    else if AnySearch(patterns, tags[0]) then DesignationOf(d)
    else
      var r := MatchByPatterns(tags[1..], d, patterns);
      assert forall t | 1 <= t < |tags| :: tags[t] == tags[1..][t - 1];
      r
  }

  /**
   * `designation.get("tags") or []`: a missing or falsy value is the empty
   * list, a list is its items, and anything else (None here) makes the loop
   * skip the designation.
   */
  function TagsOf(d: seq<Field>): Option<seq<Json>> {
    match Get(d, "tags")
    case None => Some([])
    case Some(v) => if !Truthy(v) then Some([]) else if v.Arr? then Some(v.elems) else None
  }

  /** The tags of a designation are strings, as its schema declares (`Optional[List[str]]`). */
  predicate TextTags(d: seq<Field>) {
    TagsOf(d).Some? ==> forall k | 0 <= k < |TagsOf(d).value| :: TagsOf(d).value[k].Str?
  }

  predicate AllTextTags(ds: seq<seq<Field>>) {
    forall i | 0 <= i < |ds| :: TextTags(ds[i])
  }

  /** The texts of the tags; `TextTags` rules out a tag that is not a string wherever this is used. */
  function Texts(es: seq<Json>): (r: seq<string>)
    ensures |r| == |es| && forall k | 0 <= k < |es| && es[k].Str? :: r[k] == es[k].s
  {
    if es == [] then [] else [if es[0].Str? then es[0].s else ""] + Texts(es[1..])
  }

  /** What one designation yields for `patterns`: None when its tags are skipped or match nothing. */
  function MatchAt(d: seq<Field>, patterns: seq<Pattern>): Json
  {
    match TagsOf(d)
    case None => Null
    case Some(es) => MatchByPatterns(Texts(es), d, patterns)
  }

  /** What each designation yields for `patterns`, in order. */
  function Yields(ds: seq<seq<Field>>, patterns: seq<Pattern>): (r: seq<Json>)
    ensures |r| == |ds|
  {
    seq(|ds|, j requires 0 <= j < |ds| => MatchAt(ds[j], patterns))
  }

  /** The value an `if x is None: x = ...` loop leaves in `x` after the values `ms`: the first that is not None. */
  function FirstNonNull(ms: seq<Json>): Json
    decreases |ms|
  {
    if ms == [] then Null
    else
      var prev := FirstNonNull(ms[..|ms| - 1]);
      if !prev.Null? then prev else ms[|ms| - 1]
  }

  /** The value the loop leaves in `question` (or `name`) after the designations `ds`. */
  function FirstMatch(ds: seq<seq<Field>>, patterns: seq<Pattern>): Json {
    FirstNonNull(Yields(ds, patterns))
  }

  /** The dict `extract_name_and_question_from_designations` returns. */
  function NameAndQuestion(ds: seq<seq<Field>>): (r: seq<Field>)
    requires AllTextTags(ds)
    ensures Keys(r) == ["Name", "Question"]
    ensures ds == [] ==> Get(r, "Name") == Some(Null) && Get(r, "Question") == Some(Null)
  {
    var question := FirstMatch(ds, QuestionPatterns);
    var name := FirstMatch(ds, NamePatterns);
    var question' := if question.Null? && |ds| > 1 then DesignationOf(ds[1]) else question;
    var name' := if name.Null? && |ds| > 0 then DesignationOf(ds[0]) else name;
    [Field("Name", name'), Field("Question", question')]
  }

  /** `extract_name_and_question_from_designations`: one pass with an early exit, then the fallbacks. */
  method ExtractNameAndQuestion(ds: seq<seq<Field>>) returns (r: seq<Field>)
    requires AllTextTags(ds)
    ensures r == NameAndQuestion(ds)
  {
    var name := Null;
    var question := Null;
    var i := 0;
    while i < |ds|
      invariant 0 <= i <= |ds|
      invariant question == FirstMatch(ds[..i], QuestionPatterns)
      invariant name == FirstMatch(ds[..i], NamePatterns)
    {
      FirstMatchStep(ds, QuestionPatterns, i);
      FirstMatchStep(ds, NamePatterns, i);
      var d := ds[i];
      var tags := TagsOf(d);
      if tags.None? {
        i := i + 1;
        continue;
      }
      if question.Null? {
        question := MatchByPatterns(Texts(tags.value), d, QuestionPatterns);
      }
      if name.Null? {
        name := MatchByPatterns(Texts(tags.value), d, NamePatterns);
      }
      if Truthy(name) && Truthy(question) {
        FirstMatchStays(ds, QuestionPatterns, i + 1);
        FirstMatchStays(ds, NamePatterns, i + 1);
        break;
      }
      i := i + 1;
    }
    if i == |ds| {
      assert ds[..i] == ds;
    }
    if question.Null? && |ds| > 1 {
      question := DesignationOf(ds[1]);
    }
    if name.Null? && |ds| > 0 {
      name := DesignationOf(ds[0]);
    }
    r := [Field("Name", name), Field("Question", question)];
  }

  /** One more designation: the value found so far, or else what the new one yields. */
  lemma FirstMatchStep(ds: seq<seq<Field>>, patterns: seq<Pattern>, i: nat)
    requires i < |ds|
    ensures FirstMatch(ds[..i + 1], patterns)
      == if FirstMatch(ds[..i], patterns).Null? then MatchAt(ds[i], patterns) else FirstMatch(ds[..i], patterns)
  {
    var ms := Yields(ds[..i + 1], patterns);
    assert ds[..i + 1][..i] == ds[..i];
    assert ms[..i] == Yields(ds[..i], patterns);
  }

  /** What designation `j` yields is entry `j` of `Yields`. */
  lemma YieldsAt(ds: seq<seq<Field>>, patterns: seq<Pattern>, j: nat)
    requires j < |ds|
    ensures Yields(ds, patterns)[j] == MatchAt(ds[j], patterns)
  {
  }

  /** Once a value is found, later values change nothing. */
  lemma {:induction false} FirstNonNullStays(ms: seq<Json>, n: nat)
    requires n <= |ms| && !FirstNonNull(ms[..n]).Null?
    ensures FirstNonNull(ms) == FirstNonNull(ms[..n])
    decreases |ms|
  {
    if n < |ms| {
      var init := ms[..|ms| - 1];
      assert init[..n] == ms[..n];
      FirstNonNullStays(init, n);
    } else {
      assert ms[..n] == ms;
    }
  }

  /** The result is the first value that is not None. */
  lemma {:induction false} FirstNonNullIsFirst(ms: seq<Json>, i: nat)
    requires i < |ms| && !ms[i].Null?
    requires forall j | 0 <= j < i :: ms[j].Null?
    ensures FirstNonNull(ms) == ms[i]
    decreases |ms|
  {
    var init := ms[..|ms| - 1];
    if i < |ms| - 1 {
      FirstNonNullIsFirst(init, i);
    } else {
      FirstNonNullNone(init);
    }
  }

  /** The result is None exactly when every value is None. */
  lemma {:induction false} FirstNonNullNone(ms: seq<Json>)
    ensures FirstNonNull(ms).Null? <==> forall j | 0 <= j < |ms| :: ms[j].Null?
    decreases |ms|
  {
    if ms != [] {
      var init := ms[..|ms| - 1];
      FirstNonNullNone(init);
      assert forall j | 0 <= j < |init| :: init[j] == ms[j];
    }
  }

  /** Once a designation has matched, later designations change nothing, so the early exit is safe. */
  lemma FirstMatchStays(ds: seq<seq<Field>>, patterns: seq<Pattern>, n: nat)
    requires n <= |ds|
    requires !FirstMatch(ds[..n], patterns).Null?
    ensures FirstMatch(ds, patterns) == FirstMatch(ds[..n], patterns)
  {
    assert Yields(ds[..n], patterns) == Yields(ds, patterns)[..n];
    FirstNonNullStays(Yields(ds, patterns), n);
  }

  /** The loop's value is what the first designation with a non-None match yields. */
  lemma FirstMatchIsFirst(ds: seq<seq<Field>>, patterns: seq<Pattern>, i: nat)
    requires i < |ds|
    requires !MatchAt(ds[i], patterns).Null?
    requires forall j | 0 <= j < i :: MatchAt(ds[j], patterns).Null?
    ensures FirstMatch(ds, patterns) == MatchAt(ds[i], patterns)
  {
    var ms := Yields(ds, patterns);
    forall j | 0 <= j <= i ensures ms[j] == MatchAt(ds[j], patterns) {
      YieldsAt(ds, patterns, j);
    }
    FirstNonNullIsFirst(ms, i);
  }

  /** No designation yields a match exactly when the loop ends with None. */
  lemma FirstMatchNone(ds: seq<seq<Field>>, patterns: seq<Pattern>)
    ensures FirstMatch(ds, patterns).Null? <==> forall j | 0 <= j < |ds| :: MatchAt(ds[j], patterns).Null?
  {
    var ms := Yields(ds, patterns);
    FirstNonNullNone(ms);
    forall j | 0 <= j < |ds| ensures ms[j] == MatchAt(ds[j], patterns) {
      YieldsAt(ds, patterns, j);
    }
  }

  /** One substring of another occurs wherever the other does. */
  lemma SubstringTransitive(a: string, b: string, c: string)
    requires IsSubstring(a, b) && IsSubstring(b, c)
    ensures IsSubstring(a, c)
  {
    var i :| 0 <= i <= |b| - |a| && a <= b[i..];
    var j :| 0 <= j <= |c| - |b| && b <= c[j..];
    forall k | 0 <= k < |a|
      ensures a[k] == c[j + i + k]
    {
      assert a[k] == b[i + k];
    }
    assert a <= c[j + i..];
  }

  /** The three question patterns match exactly the tags that contain "Question". */
  lemma QuestionSubsumes(tag: string)
    ensures AnySearch(QuestionPatterns, tag) <==> IsSubstring("Question", tag)
  {
    if AnySearch(QuestionPatterns, tag) {
      var p :| 0 <= p < |QuestionPatterns| && Search(QuestionPatterns[p], tag);
      var k :| 0 <= k < |QuestionPatterns[p].alts| && IsSubstring(QuestionPatterns[p].alts[k], tag);
      QuestionInEach(QuestionPatterns[p].alts[k], tag);
    }
    if IsSubstring("Question", tag) {
      var last := QuestionPatterns[2];
      assert last.alts[0] == "Question";
      assert Search(last, tag);
    }
  }

  lemma QuestionInEach(alt: string, tag: string)
    requires alt in {"Question Text", "Alternate Question Text", "Alternative Question Text", "Question"}
    requires IsSubstring(alt, tag)
    ensures IsSubstring("Question", tag)
  {
    if alt != "Question" {
      assert "Question" <= alt[|alt| - 13..];
      SubstringTransitive("Question", alt, tag);
    }
  }

  /**
   * A designation gives the question exactly when its tags are a list (or
   * None) and one of them contains "Question"; then it gives its
   * `designation` text.
   */
  lemma QuestionMatch(d: seq<Field>)
    requires TextTags(d)
    ensures MatchAt(d, QuestionPatterns)
      == if TagsOf(d).Some? && exists t | 0 <= t < |TagsOf(d).value| :: IsSubstring("Question", TagsOf(d).value[t].s)
         then DesignationOf(d) else Null
  {
    if TagsOf(d).Some? {
      var es := TagsOf(d).value;
      var tags := Texts(es);
      forall t | 0 <= t < |es| ensures AnySearch(QuestionPatterns, tags[t]) <==> IsSubstring("Question", es[t].s) {
        QuestionSubsumes(tags[t]);
      }
    }
  }

  /**
   * When no designation's tags give a question, the question is the text of
   * the second designation, if there is one; likewise the name falls back to
   * the first designation.
   */
  lemma Fallbacks(ds: seq<seq<Field>>)
    requires AllTextTags(ds)
    ensures (forall j | 0 <= j < |ds| :: MatchAt(ds[j], QuestionPatterns).Null?) && |ds| > 1
      ==> Get(NameAndQuestion(ds), "Question") == Some(DesignationOf(ds[1]))
    ensures (forall j | 0 <= j < |ds| :: MatchAt(ds[j], NamePatterns).Null?) && |ds| > 0
      ==> Get(NameAndQuestion(ds), "Name") == Some(DesignationOf(ds[0]))
  {
    FirstMatchNone(ds, QuestionPatterns);
    FirstMatchNone(ds, NamePatterns);
  }
}
