# cde-clustering phrase mining, modelled in Dafny

cde-clustering mines phrases from nested clinical metadata records (Common Data Elements and forms) and deduplicates them. Each record is a tree of dicts, lists and scalars, identified by its `tinyId`. The tool walks every record. For each string field whose key is in a chosen set, it windows the cleaned, lemmatized words of the text into phrases of at least `min_words` words. It then records which `tinyId`s each phrase occurs in, per dotted field path. Phrases shared by too few records are dropped. Sub-phrases are pruned by one of three greedy strategies: per ID, global, or by threshold. The tool can then strip the chosen phrases from the records again.

Around that engine sit small tree and string utilities, and this project models them too:
- the generic leaf visitor `recursive_descent`;
- dotted-path lookup with indices and `*` wildcards;
- nested-dict increment and flattening;
- field counting and grouping;
- underscore-key renaming;
- text sanitizers and permissible-value simplification;
- Unicode-to-ASCII normalization;
- a designation name/question picker;
- a vocabulary ranker with uint16 codes;
- the CSV/TSV writer.

How the model represents the program:
- A record is a `Json` value (`json.dfy`). Dicts keep insertion order, so a dict is a sequence of key/value entries read with `Get` and written with `Put`.
- A phrase map (path -> phrase -> IDs) is a `map<string, map<string, set<string>>>`.
- Code that mutates state step by step is modelled by methods with loops or by classes with fields: the walkers that fill a shared phrase map, the pruning passes, the aggregation loops, the counters, the vocabulary builder, the record being rewritten by the phrase stripper. Each is proved equal to a specification function, and the properties are proved about that function.
- Pure code (recursion and comprehensions) becomes functions and lemmas.
- NLTK (tokenizer, part-of-speech tagger, lemmatizer, stopword list) and `str.lower`/`str.isalnum` are parameters: a datatype of functions passed to the model. So are the regular-expression search of the counter's "regex" match type and `classify_type`.
- Python's integer, string and list semantics are written out where they matter: negative list indices, `str.replace`, `str.split`, `sorted` on strings by code point, and the wrap-around of codes modulo 32002.

In these places the code does not do what its parameter names suggest, or does more than its comments say; the model follows the code:
- The `lemmatize` flag is lost on recursion. The list branch of the newer walker passes `verbatim` in its place, and the other recursive calls fall back to `lemmatize=True`. The model reproduces this as written; `PhraseExtraction` and `LegacyExtractor.NestedListLemmatizes` state its consequences.
- The older `extract_phrases` lemmatizes every alphanumeric token before it consults the flag.
- The older `prune_subphrases_by_tinyid` (`cde_analyzer/logic/extractor.py` lines 208-236) is the same algorithm as the one in `phrase_pruning.py`, so `PhrasePruning.PruneByTinyId` models both.
- The aggregators' stale `pruned` variable is listed under Findings. Both aggregators are modelled with the corrected loop.

## Model

| member | source | states |
|---|---|---|
| Recursor.Leaves | cde_analyzer/core/recursor.py:1-24 | the visitor only ever sees nodes that are neither dicts nor lists, and a scalar root gives exactly one call, with the root path |
| Recursor.FieldLeaves | cde_analyzer/core/recursor.py:5-13 | the entries of a dict are walked in order under `path.key` (just `key` at the root), and every call they lead to is on a scalar |
| Recursor.ElemLeaves | cde_analyzer/core/recursor.py:14-22 | the elements of a list are walked in order under `path.*`, and every call they lead to is on a scalar |
| Recursor.LeavesCount | cde_analyzer/core/recursor.py:1-24 | the visitor is called exactly once per scalar node of the tree, whatever the root path |
| Recursor.FieldLeavesCount | cde_analyzer/core/recursor.py:5-13 | a dict's entries give one call per scalar node below them |
| Recursor.ElemLeavesCount | cde_analyzer/core/recursor.py:14-22 | a list's elements give one call per scalar node below them |
| Recursor.LeavesUnder | cde_analyzer/core/recursor.py:5-22 | below a non-empty path, every path the visitor receives extends it with a `.` and further segments |
| Recursor.FieldLeavesUnder | cde_analyzer/core/recursor.py:9 | every path reached through a dict entry starts with `path.` |
| Recursor.ElemLeavesUnder | cde_analyzer/core/recursor.py:18 | every path reached through a list element starts with the list's path |
| Strings.Split | cde_analyzer/logic/phrase_stripper.py:81 | `str.split` on one separator gives at least one part; `JoinSplit` and `SplitJoin` state that it inverts joining |
| Strings.JoinSplit | cde_analyzer/logic/phrase_stripper.py:81 | joining the parts of a split with the separator gives the string back |
| Strings.SplitJoin | cde_analyzer/logic/phrase_stripper.py:81 | splitting parts that do not hold the separator, once joined, gives the parts back |
| Strings.SplitAppend | cde_analyzer/logic/phrase_stripper.py:81 | splitting two strings joined by the separator gives the parts of each in turn |
| Strings.SplitPartsFree | cde_analyzer/logic/phrase_stripper.py:81 | no part of a split holds the separator |
| Strings.Strip | cde_analyzer/utils/extract_embed.py:30 | `str.strip`: the result has no whitespace at either end and is a substring of the input |
| Strings.ReplaceAll | cde_analyzer/logic/phrase_stripper.py:132 | `str.replace` of every non-overlapping occurrence, left to right; `ReplaceAbsent` states that a text without the pattern is kept |
| Strings.ReplaceAbsent | cde_analyzer/logic/phrase_stripper.py:132 | replacing a pattern that does not occur changes nothing |
| Strings.LexLess | cde_analyzer/utils/phrase_pruning.py:15 | Python's ordering of strings by code point; `LexIrreflexive`, `LexTransitive` and `LexTotal` state that it is a strict total order |
| Strings.LexIrreflexive | cde_analyzer/utils/phrase_pruning.py:15 | no string sorts before itself |
| Strings.LexTransitive | cde_analyzer/utils/phrase_pruning.py:15 | the string order is transitive |
| Strings.LexTotal | cde_analyzer/utils/phrase_pruning.py:15 | of two different strings, one sorts before the other |
| Json.PyStr | cde_analyzer/logic/counter.py:32 | `str` of a value: a scalar gives `None`, `True`, `False`, its digits or its text; lists and dicts are written with `repr` of their items |
| Json.StrRepr | cde_analyzer/logic/counter.py:32 | `repr` of a string starts and ends with the same quote, chosen as Python chooses it |
| Json.PlainStrRepr | cde_analyzer/logic/counter.py:32 | a string with no quote, backslash or control character is written between single quotes unchanged |
| Json.DoubleQuoted | cde_analyzer/logic/counter.py:32 | a string holding `'` and no `"` is quoted with `"` and its `'` is not escaped |
| Helpers.AddTo | cde_analyzer/utils/helpers.py:20 | `current.get(last_key, 0) + v` succeeds exactly when the stored value is absent, a number or a bool, and then gives the stored number plus `v` |
| Helpers.IncrementErr | cde_analyzer/utils/helpers.py:7-20 | `safe_nested_increment` fails exactly when no key is given (`keys[-1]`) or the value at the end of the path cannot be added to |
| Helpers.IncrementAdds | cde_analyzer/utils/helpers.py:7-20 | after a successful increment the value at the full path is its old value (0 when absent) plus `v` |
| Helpers.IncrementLast | cde_analyzer/utils/helpers.py:19-20 | with one key, the sum is stored directly under it |
| Helpers.IncrementStep | cde_analyzer/utils/helpers.py:15-18 | above the last key, the increment of the child dict is stored under the first key |
| Helpers.IncrementMakesDicts | cde_analyzer/utils/helpers.py:15-18 | after an increment every proper prefix of the path leads to a dict: missing and non-dict entries were replaced by `{}` |
| Helpers.IncrementSiblings | cde_analyzer/utils/helpers.py:7-20 | an increment changes nothing that is reached by a path parting ways with its own |
| Helpers.IncrementIsPut | cde_analyzer/utils/helpers.py:7-20 | a successful increment replaces (or adds) exactly one entry of the outer dict, the one under the first key |
| Helpers.UpdateGet | cde_analyzer/utils/helpers.py:32 | after `flat.update(other)` a key holds its last value in `other`, or else its old value |
| Helpers.FlattenGet | cde_analyzer/utils/helpers.py:23-35 | `flatten_nested_dict` maps each joined key to the value of its last non-dict leaf, depth first, and has no other key; an empty nested dict contributes nothing |
| Helpers.FlattenIntoGet | cde_analyzer/utils/helpers.py:29-34 | the loop over the entries writes the leaves into `flat` in order |
| Helpers.FlattenEntryGet | cde_analyzer/utils/helpers.py:30-34 | one entry adds its own value under the joined key, or the flattened entries of its nested dict |
| Helpers.FlattenUnique | cde_analyzer/utils/helpers.py:23-35 | the flattened result is a dict: its keys are distinct |
| Helpers.LastValueOfDict | cde_analyzer/utils/helpers.py:29 | in a dict, the last entry for a key is its only one, so leaves of a one-level dict keep their values |
| Helpers.Increment | cde_analyzer/utils/helpers.py:7-20 | the value `safe_nested_increment` leaves in the dict, or its error; `IncrementErr`, `IncrementAdds` and `IncrementSiblings` state when it fails, what the last key then holds, and that every other path is unchanged |
| Helpers.SafeNestedIncrement | cde_analyzer/utils/helpers.py:7-20 | the loop that walks down the keys, creating missing dicts, and adds at the last key computes exactly `Increment`, error cases included |
| Helpers.IncrementUnfold | cde_analyzer/utils/helpers.py:14-18 | one step of the walk: incrementing below a dict goes through the dict the loop stepped into and stores it back under that key |
| Helpers.IncrementFailsBelow | cde_analyzer/utils/helpers.py:14-20 | an entry at the last key that cannot be added to makes the whole increment fail with that error, however deep the walk |
| Helpers.Flatten | cde_analyzer/utils/helpers.py:23-35 | the flat dict of dotted keys `flatten` builds; `FlattenGet` and `FlattenUnique` state that each key holds the last leaf written under it and that keys are unique |
| PathUtils.ParseSigned | cde_analyzer/utils/path_utils.py:43 | Python `int(part)` accepts an optional sign followed by groups of ASCII digits (single underscores between digits); other decimal digits are listed under Left out |
| PathUtils.IntStrParses | cde_analyzer/utils/path_utils.py:43 | `int(str(n)) == n` for every integer, negative ones included |
| PathUtils.NegativeParses | cde_analyzer/utils/path_utils.py:43 | `-` followed by digit groups reads as the negated value |
| PathUtils.UnsignedParses | cde_analyzer/utils/path_utils.py:43 | digit groups read as their decimal value |
| PathUtils.Resolve | cde_analyzer/utils/path_utils.py:40-48 | `resolve` never yields a JSON null as a value: a missing key, a bad index or a scalar context is "no value" |
| PathUtils.PathValue | cde_analyzer/utils/path_utils.py:31-69 | `get_path_value` yields no value or a non-null value |
| PathUtils.Walk | cde_analyzer/utils/path_utils.py:53-69 | the loop over the segments yields no value or a non-null value |
| PathUtils.Gather | cde_analyzer/utils/path_utils.py:57-63 | the comprehension after `*` drops every `None`, keeping list order |
| PathUtils.Pick | cde_analyzer/utils/path_utils.py:61 | each item gives the recursive lookup of the remainder, or the item itself when the remainder is empty |
| PathUtils.GetPathValue | cde_analyzer/utils/path_utils.py:31-69 | the loop with its early returns and its recursion after `*` computes `PathValue` |
| PathUtils.GatherRemainder | cde_analyzer/utils/path_utils.py:57-63 | the comprehension computes `Gather` |
| PathUtils.WalkStar | cde_analyzer/utils/path_utils.py:54-63 | a `*` on a list gathers the rest over its elements; on anything else it gives `[]` |
| PathUtils.WalkResolve | cde_analyzer/utils/path_utils.py:64-67 | any other segment resolves one step, stopping with `None` when nothing is found |
| PathUtils.GatherStep | cde_analyzer/utils/path_utils.py:58-63 | one more element adds its non-None result at the end |
| PathUtils.PickIsPathValue | cde_analyzer/utils/path_utils.py:57-61 | the remainder joined by `.` and split again gives back the segments after the `*` |
| PathUtils.WalkConcat | cde_analyzer/utils/path_utils.py:53-69 | a path without `*` can be followed in two steps, its first segments and then the rest |
| PathUtils.PathValueSteps | cde_analyzer/utils/path_utils.py:31-69 | `get_path_value(obj, "p.q")` is `get_path_value(get_path_value(obj, "p"), "q")` when `p` has no `*` |
| PathUtils.TrailingStar | cde_analyzer/utils/path_utils.py:61-62 | a trailing `*` yields the list's non-null elements in order |
| PathUtils.StarOnNonList | cde_analyzer/utils/path_utils.py:55-56 | `*` on anything but a list yields `[]`, whatever follows |
| PathUtils.ScalarStops | cde_analyzer/utils/path_utils.py:48 | a segment other than `*` on a scalar yields `None` |
| PathUtils.OneSegment | cde_analyzer/utils/path_utils.py:50-69 | a single plain segment is one `resolve` |
| PathUtils.IndexLookup | cde_analyzer/utils/path_utils.py:41-45 | a decimal index selects a list element, counting from the end when negative, and yields `None` outside `-len..len-1` |
| PathUtils.IndexBothWays | cde_analyzer/utils/path_utils.py:41-45 | element `i` is reached both by index `i` and by index `i - len` |
| PathUtils.NewKeysCover | cde_analyzer/utils/path_utils.py:85-86 | after one dict, the known keys are the old ones plus that dict's keys |
| PathUtils.NewKeysDistinct | cde_analyzer/utils/path_utils.py:85-86 | no key is listed twice |
| PathUtils.KeyOrderDistinct | cde_analyzer/utils/path_utils.py:82-88 | the keys of the result, in first-appearance order, are distinct |
| PathUtils.KeyOrderCovers | cde_analyzer/utils/path_utils.py:82-88 | a key appears in the result exactly when one of the input dicts has it |
| PathUtils.PermisValuesToDictList | cde_analyzer/utils/path_utils.py:72-88 | every key of any input dict, in first-appearance order, maps to the list of its values in input order; no list is empty and no other key is present |
| PathUtils.AppendEntries | cde_analyzer/utils/path_utils.py:85-86 | the inner loop appends each entry's value to the list of its key and keeps the key bookkeeping |
| PathUtils.EntryValuesOfDict | cde_analyzer/utils/path_utils.py:85-86 | one dict adds one value for each of its keys and none for other keys |
| PathUtils.OneValuePerDict | cde_analyzer/utils/path_utils.py:82-88 | each key's list has exactly one value per input dict that has the key |
| DesignationParser.MatchByPatterns | cde_analyzer/utils/designation_parser.py:20-27 | the designation text is returned exactly when some tag matches some pattern, and None otherwise |
| DesignationParser.NameAndQuestion | cde_analyzer/utils/designation_parser.py:30-54 | the result has exactly the keys "Name" and "Question", both None for an empty list |
| DesignationParser.ExtractNameAndQuestion | cde_analyzer/utils/designation_parser.py:30-54 | the loop with its `continue`, its early `break` and the fallbacks computes `NameAndQuestion` |
| DesignationParser.FirstMatchStep | cde_analyzer/utils/designation_parser.py:41-44 | one more designation keeps a value already found, or else takes what the new one yields |
| DesignationParser.FirstNonNullStays | cde_analyzer/utils/designation_parser.py:41-44 | once `question` (or `name`) is set, later designations do not change it |
| DesignationParser.FirstNonNullIsFirst | cde_analyzer/utils/designation_parser.py:41-44 | the value kept is the first one that is not None |
| DesignationParser.FirstNonNullNone | cde_analyzer/utils/designation_parser.py:41-44 | the value stays None exactly when every designation yields None |
| DesignationParser.FirstMatchStays | cde_analyzer/utils/designation_parser.py:45-46 | once both are found, the remaining designations could change nothing, so the `break` is safe |
| DesignationParser.FirstMatchIsFirst | cde_analyzer/utils/designation_parser.py:36-44 | the question (name) is the text of the first designation whose tags match |
| DesignationParser.FirstMatchNone | cde_analyzer/utils/designation_parser.py:36-44 | the loop leaves None exactly when no designation matches |
| DesignationParser.QuestionSubsumes | cde_analyzer/utils/designation_parser.py:6-10 | the three question patterns accept exactly the tags containing "Question" |
| DesignationParser.QuestionMatch | cde_analyzer/utils/designation_parser.py:37-42 | a designation gives the question exactly when its tags are a list (or missing) and one contains "Question"; it then gives its `designation` text |
| DesignationParser.Fallbacks | cde_analyzer/utils/designation_parser.py:48-52 | without a tagged question the second designation's text is used, and without a tagged name the first one's |
| Unicode.AsciiOnly | cde_analyzer/utils/unicode.py:59 | `encode("ascii", "ignore")` keeps only ASCII characters and never lengthens the text |
| Unicode.NormalizeUnicode | cde_analyzer/utils/unicode.py:50-61 | the normal form is pure ASCII |
| Unicode.KeysNotAscii | cde_analyzer/utils/unicode.py:5-43 | no key of the substitution table is an ASCII character |
| Unicode.ValuesAscii | cde_analyzer/utils/unicode.py:5-43 | every replacement in the table is ASCII |
| Unicode.SubstituteAppend | cde_analyzer/utils/unicode.py:45-55 | the single-character alternation replaces character by character, so it distributes over concatenation |
| Unicode.AsciiOnlyAppend | cde_analyzer/utils/unicode.py:59 | the ASCII filter distributes over concatenation |
| Unicode.NormalizeAppend | cde_analyzer/utils/unicode.py:50-61 | normalizing distributes over concatenation |
| Unicode.AsciiOnlyKeeps | cde_analyzer/utils/unicode.py:59 | an ASCII text passes the filter unchanged |
| Unicode.NormalizeChar | cde_analyzer/utils/unicode.py:50-61 | a table character becomes its replacement, an ASCII character stays, any other character is dropped |
| Unicode.AsciiUnchanged | cde_analyzer/utils/unicode.py:50-61 | ASCII text is its own normal form |
| Unicode.NormalizeIdempotent | cde_analyzer/utils/unicode.py:50-61 | `normalize_unicode` is idempotent |
| Unicode.Substitute | cde_analyzer/utils/unicode.py:45-55 | the table-driven `re.sub`; `SubstituteAppend` states that it works character by character |
| OutputWriter.PhraseRows | utils/output_writer.py:18-19 | one row per phrase of a path |
| OutputWriter.JoinRows | utils/output_writer.py:20-22 | one line per row |
| OutputWriter.WriteOutput | utils/output_writer.py:11-30 | the nested loops and the join compute `Written`: JSON dump, header plus rows joined by the separator, or ValueError |
| OutputWriter.RowsAppend | utils/output_writer.py:17-19 | the rows of two groups of paths are the rows of the first followed by those of the second |
| OutputWriter.PhraseRowsAt | utils/output_writer.py:18-19 | the `j`-th phrase gives the `j`-th row of its path |
| OutputWriter.RowsLength | utils/output_writer.py:17-19 | there is one row per (path, phrase) pair |
| OutputWriter.RowsAt | utils/output_writer.py:17-19 | rows come in dict order and hold the path, the phrase and the IDs joined by ";", unquoted |
| OutputWriter.JoinFree | utils/output_writer.py:19-22 | a join holds no character that neither its parts nor its separator hold |
| OutputWriter.RowsFreeAll | utils/output_writer.py:17-19 | no field of any row holds a character that no path, phrase or ID holds (other than ";") |
| OutputWriter.OutputLines | utils/output_writer.py:14-22 | when no field holds a newline, splitting the text at newlines gives back the header and one line per (path, phrase) pair |
| OutputWriter.HeaderFirst | utils/output_writer.py:14-16 | csv and tsv text starts with the header `path`, `phrase`, `tinyIDs` joined by "," or a tab |
| OutputWriter.UnsupportedFormat | utils/output_writer.py:12-24 | only "json", "csv" and "tsv" are accepted; anything else is a ValueError; "json" dumps the data unchanged |
| FixUnderscores.FixKeys | cde_analyzer/actions/fix_underscores.py:62-79 | scalars come back unchanged; a dict stays a dict and a list stays a list of the same length |
| FixUnderscores.FixItems | cde_analyzer/actions/fix_underscores.py:76-77 | one fixed item per list item |
| FixUnderscores.FixItemsAt | cde_analyzer/actions/fix_underscores.py:76-77 | list items are fixed in order, at the depth of their list |
| FixUnderscores.LastWrite | cde_analyzer/actions/fix_underscores.py:66-74 | some entry is stored under a key exactly when some entry is renamed to it |
| FixUnderscores.FixFieldsGet | cde_analyzer/actions/fix_underscores.py:66-74 | `new_dict[k]` holds the fixed value of the last entry renamed to `k` (later entries overwrite earlier ones) |
| FixUnderscores.FixedKeys | cde_analyzer/actions/fix_underscores.py:66-75 | the keys of the result are exactly the new keys of the input's entries |
| FixUnderscores.BeyondReach | cde_analyzer/actions/fix_underscores.py:62-79 | beyond `max_depth` nothing is renamed: the subtree comes back equal to the input |
| FixUnderscores.FieldsBeyondReach | cde_analyzer/actions/fix_underscores.py:66-74 | beyond `max_depth` a dict is rebuilt entry for entry |
| FixUnderscores.FixFieldsEntries | cde_analyzer/actions/fix_underscores.py:66-74 | every entry of `new_dict` is an input entry, renamed and fixed |
| FixUnderscores.NoUnderscoreLeft | cde_analyzer/actions/fix_underscores.py:62-79 | with no depth limit and a prefix not starting with `_`, no key anywhere in the result starts with `_` |
| Counter.LastHit | cde_analyzer/logic/counter.py:39-46 | the hit the visitor's last assignment to `found` comes from: none when no leaf matches, else a matching leaf with no matching leaf after it |
| Counter.FoundStep | cde_analyzer/logic/counter.py:39-44 | one visitor call replaces `found` on a hit and keeps it otherwise |
| Counter.FindGroupValue | cde_analyzer/logic/counter.py:28-49 | the top-level lookup, or the walk with its visitor updating `found`, computes `GroupValue` |
| Counter.GroupValueIsLastHit | cde_analyzer/logic/counter.py:37-49 | "path" and "terminal" give `str` of the last matching leaf, or "<unknown>" when none matches |
| Counter.UnknownGroupType | cde_analyzer/logic/counter.py:39-49 | a group type other than "top", "path" and "terminal" always gives "<unknown>" |
| Counter.GlobStar | cde_analyzer/logic/counter.py:86 | the field name `*` matches every path without a newline |
| Counter.GlobSelf | cde_analyzer/logic/counter.py:86 | every field name without a newline matches itself, wildcards included, under the reading of names free of other regex syntax that `Glob` takes |
| Counter.MarkOf | cde_analyzer/logic/counter.py:81-101 | the visitor only counts a leaf whose path is selected by a field name |
| Counter.MarksAt | cde_analyzer/logic/counter.py:81-103 | the visitor decides each leaf on its own, in visiting order |
| Counter.MarksWellMarked | cde_analyzer/logic/counter.py:89-98 | every counted leaf was matched by a field name |
| Counter.VisitKeeps | cde_analyzer/logic/counter.py:92-98 | a visitor call changes no tally but that of its own key |
| Counter.TallyShape | cde_analyzer/logic/counter.py:78-103 | `flat` is a dict of positive counts |
| Counter.PutTally | cde_analyzer/logic/counter.py:92-98 | one increment keeps `flat` a dict of positive counts |
| Counter.TallyCounts | cde_analyzer/logic/counter.py:78-103 | each key's tally is the number of counted leaves under it, and a key with none is absent |
| Counter.TallyEmpty | cde_analyzer/logic/counter.py:78-103 | `flat` is empty exactly when no leaf is counted |
| Counter.TypesCoverTally | cde_analyzer/logic/counter.py:100-101 | with `count_type`, every tallied key has a class, so the "unknown" default at line 134 is never used |
| Counter.Contributes | cde_analyzer/logic/counter.py:113-121 | `any(flat.values())` holds exactly when one of the item's leaves is counted |
| Counter.PutShaped | cde_analyzer/logic/counter.py:139-141 | storing a well-shaped subtree keeps `results` well-shaped |
| Counter.GetShaped | cde_analyzer/logic/counter.py:139-141 | every subtree of a well-shaped `results` is well-shaped one level less deep |
| Counter.IncrementShaped | cde_analyzer/logic/counter.py:139-141 | on `results` with counts exactly as deep as the key path, `safe_nested_increment` never raises and keeps that shape |
| Counter.KeyPath | cde_analyzer/logic/counter.py:133-141 | the key path starts with the tallied key and is two levels deep, three with `count_type` |
| Counter.AddCounts | cde_analyzer/logic/counter.py:132-141 | adding an item's tallies keeps `results` well-shaped |
| Counter.AddCountsGet | cde_analyzer/logic/counter.py:132-141 | the count at a key's path grows by that key's tally, and the path of a key without a tally is left alone |
| Counter.LastKeyIsNew | cde_analyzer/logic/counter.py:132 | in a dict the last entry's key occurs nowhere before it |
| Counter.ItemStep | cde_analyzer/logic/counter.py:77-141 | one pass of the item loop keeps `results` well-shaped |
| Counter.ItemCounts | cde_analyzer/logic/counter.py:77-141 | an item adds, at each key's path under its group, the number of its leaves counted under that key |
| Counter.ItemSkipped | cde_analyzer/logic/counter.py:109-121 | an item none of whose leaves is counted leaves `results` unchanged |
| Counter.CountMatching | cde_analyzer/logic/counter.py:63-143 | the result is always well-shaped: numbers at depth two (three with `count_type`), dicts above |
| Counter.VisitLeaf | cde_analyzer/logic/counter.py:81-101 | one visitor call updates `flat` and `flat_types` as `Visit` and `Note` say |
| Counter.TallyLeaves | cde_analyzer/logic/counter.py:78-103 | the walk with the visitor computes the tally and the classes of the item's leaves |
| Counter.AddFlatCounts | cde_analyzer/logic/counter.py:132-141 | the loop over `flat.items()` computes `AddCounts` |
| Counter.CountMatchingFields | cde_analyzer/logic/counter.py:63-143 | the loops over the items compute `CountMatching` |
| Counter.GroupValue | cde_analyzer/logic/counter.py:28-49 | the group value of a record; `GroupValueIsLastHit` and `UnknownGroupType` state which leaf it comes from |
| Counter.Glob | cde_analyzer/logic/counter.py:86 | `re.fullmatch` of a field name with `*` read as `.*` against a path; `GlobStar` and `GlobSelf` state what it accepts |
| Counter.Selected | cde_analyzer/logic/counter.py:82-88 | a leaf is selected when a field name equals its path or its last segment, or is a wildcard name that matches it; `MarkOf` and `MarksWellMarked` rely on it |
| Counter.Counted | cde_analyzer/logic/counter.py:89-98 | a selected leaf is counted by "non_null" when its value is outside `None`, `""`, `[]`, `"null"`, by "null" when it is inside, and by "fixed" and "regex" when `match_condition` holds; the lemmas below state this case by case |
| Counter.FixedCounts | cde_analyzer/logic/counter.py:18-22 | under the "fixed" match type, with a pattern that is absent or not empty, a leaf is counted exactly when it is selected and its value is the pattern string; with no pattern nothing is counted |
| Counter.FixedEmptyCountsNothing | cde_analyzer/logic/counter.py:18-22 | a "fixed" pattern that is the empty string never counts anything: the blank check rejects it first |
| Counter.FixedNullOverlapsNull | cde_analyzer/logic/counter.py:89-97 | the string "null" is counted both by the "fixed" pattern "null" and by the "null" type, and not by "non_null" |
| Counter.RegexCounts | cde_analyzer/logic/counter.py:18-24 | under the "regex" match type a selected leaf is counted exactly when it is not blank and the search finds the pattern |
| Counter.NullSplitsLeaves | cde_analyzer/logic/counter.py:89-98 | every selected leaf is counted by exactly one of "null" and "non_null", and by no unknown match type |
| ExtractEmbed.DropRun | cde_analyzer/utils/extract_embed.py:10-11 | dropping the leading run of a character leaves a suffix that does not start with it |
| ExtractEmbed.Squeeze | cde_analyzer/utils/extract_embed.py:25-28 | collapsing runs never lengthens the text and turns a leading run into one space |
| ExtractEmbed.StripEmbeddedNl | cde_analyzer/utils/extract_embed.py:15-32 | a string comes back clean (no CR, no LF, no double space, no surrounding whitespace); anything else comes back unchanged |
| ExtractEmbed.ReplaceDrops | cde_analyzer/utils/extract_embed.py:21-22 | after the two line-ending substitutions no CR is left |
| ExtractEmbed.SqueezeDrops | cde_analyzer/utils/extract_embed.py:25 | after `MULTI_NL.sub(" ", ...)` no LF is left |
| ExtractEmbed.SqueezeKeeps | cde_analyzer/utils/extract_embed.py:25-28 | collapsing runs brings in no new character other than a space |
| ExtractEmbed.SqueezeSingleSpaced | cde_analyzer/utils/extract_embed.py:28 | after `MULTI_SPACE.sub(" ", ...)` no two spaces are adjacent |
| ExtractEmbed.SubstringKeeps | cde_analyzer/utils/extract_embed.py:30 | the stripped text holds no character the unstripped one lacks, and no double space if it had none |
| ExtractEmbed.CleanTextIsClean | cde_analyzer/utils/extract_embed.py:20-32 | the text `strip_embedded_nl` returns is clean |
| ExtractEmbed.SqueezeAbsent | cde_analyzer/utils/extract_embed.py:25-28 | collapsing runs of a character the text lacks changes nothing |
| ExtractEmbed.SqueezeSpacedSame | cde_analyzer/utils/extract_embed.py:28 | collapsing spaces in single-spaced text changes nothing |
| ExtractEmbed.CleanTextFixes | cde_analyzer/utils/extract_embed.py:20-32 | a clean text is its own `strip_embedded_nl` |
| ExtractEmbed.StripClean | cde_analyzer/utils/extract_embed.py:30 | a text without surrounding whitespace is its own `strip()` |
| ExtractEmbed.CleanTextIdempotent | cde_analyzer/utils/extract_embed.py:15-32 | `strip_embedded_nl` is idempotent |
| ExtractEmbed.SanitizeIsClean | cde_analyzer/utils/extract_embed.py:35-44 | `sanitize` returns a clean string, and "" for None |
| ExtractEmbed.SanitizeClean | cde_analyzer/utils/extract_embed.py:35-44 | a clean string passes `sanitize` unchanged |
| ExtractEmbed.SanitizeIdempotent | cde_analyzer/utils/extract_embed.py:35-44 | `sanitize` is idempotent |
| ExtractEmbed.Strs | cde_analyzer/utils/extract_embed.py:97-99 | the result lists hold the strings appended, in order |
| ExtractEmbed.SimplifyPermissibleValues | cde_analyzer/utils/extract_embed.py:47-107 | the loop with its `continue` and the collapse branch computes `Simplified`: `{}` for a non-list, else the two lists or their ";; " joins |
| ExtractEmbed.PvPairKept | cde_analyzer/utils/extract_embed.py:70-92 | a kept value is the sanitized `permissibleValue` without a numbered list; a kept secondary text is the sanitized definition-or-name and differs from the value |
| ExtractEmbed.PvListClean | cde_analyzer/utils/extract_embed.py:96-97 | every listed value is a non-empty clean string without a numbered list |
| ExtractEmbed.SecondaryListClean | cde_analyzer/utils/extract_embed.py:98-99 | every listed secondary text is a non-empty clean string without a numbered list |
| ExtractEmbed.PvPairClean | cde_analyzer/utils/extract_embed.py:77-92 | both texts an item yields are clean |
| ExtractEmbed.DictsOf | cde_analyzer/utils/extract_embed.py:126-127 | a list of dicts is read as those dicts, in order |
| ExtractEmbed.Entries | cde_analyzer/utils/extract_embed.py:130-138 | the result dict has exactly the keys listed, in order |
| ExtractEmbed.NormalizedDict | cde_analyzer/utils/extract_embed.py:125-139 | a list of dicts becomes one dict whose keys are those of any of the dicts, each once, with every value a string |
| ExtractEmbed.EntriesAt | cde_analyzer/utils/extract_embed.py:131-138 | each key holds the ";; " join of its values, None dropped and sanitized |
| ExtractEmbed.CollapseIrrelevant | cde_analyzer/utils/extract_embed.py:132-137 | `collapse` makes no difference to the result: sanitizing twice is sanitizing once |
| ExtractEmbed.EntriesCollapse | cde_analyzer/utils/extract_embed.py:132-137 | the collapse pass leaves every entry as it was |
| ExtractEmbed.ResanitizeSame | cde_analyzer/utils/extract_embed.py:134-136 | sanitizing the sanitized values again gives them back |
| ExtractEmbed.SanitizeAllClean | cde_analyzer/utils/extract_embed.py:136 | every value joined into an entry is clean |
| ExtractEmbed.CleanValue | cde_analyzer/utils/extract_embed.py:153 | a string value stays a string; any other value is kept |
| ExtractEmbed.CleanValueIdempotent | cde_analyzer/utils/extract_embed.py:153 | a cleaned string is clean and cleaning again changes nothing |
| ExtractEmbed.StripJson | cde_analyzer/utils/extract_embed.py:147-156 | one entry per entry of the input |
| ExtractEmbed.StripJsonAt | cde_analyzer/utils/extract_embed.py:152-155 | entry `i` keeps its key and gets its cleaned value |
| ExtractEmbed.StripJsonKeys | cde_analyzer/utils/extract_embed.py:147-156 | the keys are kept in order and every string value is clean |
| ExtractEmbed.StripJsonIdempotent | cde_analyzer/utils/extract_embed.py:147-156 | `strip_json` is idempotent |
| ExtractEmbed.StripJsonList | cde_analyzer/utils/extract_embed.py:159-161 | one record out per record in |
| ExtractEmbed.StripJsonListAt | cde_analyzer/utils/extract_embed.py:159-161 | record `i` of the result is `strip_json` of record `i` |
| ExtractEmbed.CleanText | cde_analyzer/utils/extract_embed.py:15-32 | `strip_embedded_nl`; `CleanTextIsClean`, `CleanTextFixes` and `CleanTextIdempotent` state that its result has no CR or LF, no double space and no leading or trailing whitespace (tabs inside the text are kept), that clean text is kept and that it is idempotent |
| ExtractEmbed.Sanitize | cde_analyzer/utils/extract_embed.py:35-44 | `sanitize`: `None` gives the empty string, anything else its cleaned `str`; `SanitizeIsClean`, `SanitizeClean` and `SanitizeIdempotent` state its properties |
| ExtractEmbed.Simplified | cde_analyzer/utils/extract_embed.py:47-107 | the result of `simplify_permissible_values`; `SimplifyPermissibleValues` computes it with the source's loop |
| ExtractEmbed.NormalizeExtracted | cde_analyzer/utils/extract_embed.py:110-144 | `normalize_extracted_value`; `NormalizedDict` states that a permissible-value list becomes a dict with unique keys |
| LemmaFasta.CountTokens | cde_analyzer/utils/lemma_fasta.py:21-27 | the `Counter` holds every token of every field but `tinyId`, with its number of occurrences |
| LemmaFasta.RankOrder | cde_analyzer/utils/lemma_fasta.py:30 | the sort key `(-freq, token)` is a strict total order on tokens |
| LemmaFasta.Ranking | cde_analyzer/utils/lemma_fasta.py:30 | the ranking lists every token once, sorted by that key |
| LemmaFasta.Code | cde_analyzer/utils/lemma_fasta.py:35-41 | codes fit in a uint16; the first 32001 ranks get 1, 2, …; 0 is given exactly at every 32002nd rank, where `counter` wraps |
| LemmaFasta.SortedDistinct | cde_analyzer/utils/lemma_fasta.py:30 | a ranking sorted by a strict order holds no token twice |
| LemmaFasta.AssignCodes | cde_analyzer/utils/lemma_fasta.py:34-58 | each ranked token is stored with the code of its rank and its count, and no other key is stored |
| LemmaFasta.GenVocab | cde_analyzer/utils/lemma_fasta.py:15-58 | the vocabulary holds exactly the tokens of the records, in rank order, each with the code of its rank and its frequency |
| LemmaFasta.GenVocabOrder | cde_analyzer/utils/lemma_fasta.py:29-30 | a token listed earlier is more frequent, or as frequent and smaller in code-point order |
| LemmaFasta.EncodeTokens | cde_analyzer/utils/lemma_fasta.py:84 | encoding succeeds exactly when every token is in the vocabulary, giving one code per token, in order |
| LemmaFasta.EncRowErrStays | cde_analyzer/utils/lemma_fasta.py:77-85 | a `KeyError` in a field ends the record |
| LemmaFasta.EncRowsErrStays | cde_analyzer/utils/lemma_fasta.py:75-87 | a `KeyError` in a record ends the call |
| LemmaFasta.EncVocab | cde_analyzer/utils/lemma_fasta.py:61-89 | the nested loops compute `EncRows`: every record encoded, or the first `KeyError` |
| LemmaFasta.EncRowAt | cde_analyzer/utils/lemma_fasta.py:76-85 | an encoded record keeps its keys in order and its `tinyId`, and every other field becomes one code per token, in order |
| LemmaFasta.EncRowOk | cde_analyzer/utils/lemma_fasta.py:76-85 | a record whose tokens are all in the vocabulary is encoded without error |
| LemmaFasta.EncRowsOk | cde_analyzer/utils/lemma_fasta.py:61-89 | with a vocabulary holding every token of the records (as `gen_vocab` of the same records does), `enc_vocab` cannot fail |
| LemmaFasta.IdEntries | cde_analyzer/utils/lemma_fasta.py:183-185 | only `tinyId` entries of the record are copied |
| LemmaFasta.AppendDictValues | cde_analyzer/utils/lemma_fasta.py:166-192 | one output record per record, in order, holding its `tinyId` and the concatenated codes of its other fields |
| LemmaFasta.EncodeAppend | cde_analyzer/utils/lemma_fasta.py:188 | the codes of two token lists in a row are the codes of the joined list |
| LemmaFasta.FastaIsEncodedTokens | cde_analyzer/utils/lemma_fasta.py:180-189 | the `fasta_uint16` payload of an encoded record is the codes of all its tokens, in order |
| PhrasePruning.RankBeforeOrder | cde_analyzer/utils/phrase_pruning.py:15 | the sort key `(-len(p.split()), p)` is a strict total order on phrases |
| PhrasePruning.Ranked | cde_analyzer/utils/phrase_pruning.py:15 | the ranking lists every phrase once: more words first, then code-point order |
| PhrasePruning.RankPhrases | cde_analyzer/utils/phrase_pruning.py:75 | `sorted(...)` computes the ranking |
| PhrasePruning.Greedy | cde_analyzer/utils/phrase_pruning.py:77-80 | a greedy pass keeps only eligible phrases of its input |
| PhrasePruning.InPrefix | cde_analyzer/utils/phrase_pruning.py:78 | the phrases visited before a phrase are exactly those ranked before it |
| PhrasePruning.GreedyPrefix | cde_analyzer/utils/phrase_pruning.py:77-80 | what the pass keeps among the first phrases does not depend on later ones |
| PhrasePruning.GreedyIsFixpoint | cde_analyzer/utils/phrase_pruning.py:77-80 | a phrase is kept exactly when it is eligible and no kept phrase ranked before it blocks it |
| PhrasePruning.GreedyAt | cde_analyzer/utils/phrase_pruning.py:78-80 | the decision about each phrase, in terms of everything the pass keeps |
| PhrasePruning.FixpointUnique | cde_analyzer/utils/phrase_pruning.py:77-80 | the kept set is the only set consistent with that rule |
| PhrasePruning.FixpointPrefix | cde_analyzer/utils/phrase_pruning.py:77-80 | a set consistent with the rule agrees with the pass on every prefix of the ranking |
| PhrasePruning.FixpointStep | cde_analyzer/utils/phrase_pruning.py:78-80 | the rule and the pass make the same decision about each next phrase |
| PhrasePruning.GreedyKeepsFirst | cde_analyzer/utils/phrase_pruning.py:77-80 | an eligible phrase ranked first is always kept |
| PhrasePruning.KeepLongest | cde_analyzer/utils/phrase_pruning.py:77-80 | the loop keeps exactly the phrases the greedy pass keeps when a phrase is blocked by a kept proper superstring |
| PhrasePruning.GlobalKept | cde_analyzer/utils/phrase_pruning.py:72-80 | global pruning keeps only phrases of the map |
| PhrasePruning.PruneGlobalSpec | cde_analyzer/utils/phrase_pruning.py:83-85 | the result holds only phrases of the map, each with its ID set unchanged |
| PhrasePruning.PruneGlobal | cde_analyzer/utils/phrase_pruning.py:67-87 | `prune_subphrases_global` computes `PruneGlobalSpec` |
| PhrasePruning.GlobalKeepsTop | cde_analyzer/utils/phrase_pruning.py:67-87 | the top-ranked phrase is always kept |
| PhrasePruning.GlobalDroppedIff | cde_analyzer/utils/phrase_pruning.py:67-87 | a phrase is dropped exactly when it is a proper substring of a kept phrase ranked before it |
| PhrasePruning.GlobalIdempotent | cde_analyzer/utils/phrase_pruning.py:67-87 | pruning the result again changes nothing |
| PhrasePruning.GlobalKeptStable | cde_analyzer/utils/phrase_pruning.py:75-80 | the kept phrases, ranked and pruned again, are all kept |
| PhrasePruning.ThresholdKept | cde_analyzer/utils/phrase_pruning.py:15-31 | the threshold pass keeps only phrases of the map |
| PhrasePruning.PruneThresholdSpec | cde_analyzer/utils/phrase_pruning.py:5-33 | the result holds only phrases of the map, with their ID sets, each with at least `min_ids` IDs and `min_words` words |
| PhrasePruning.PruneThreshold | cde_analyzer/utils/phrase_pruning.py:5-33 | the loop with its `continue` and its inner search computes `PruneThresholdSpec` |
| PhrasePruning.ThresholdResult | cde_analyzer/utils/phrase_pruning.py:17-33 | `retained` with the kept phrases and their IDs from the map is the result |
| PhrasePruning.ThresholdStep | cde_analyzer/utils/phrase_pruning.py:18-31 | one turn of the loop keeps the phrase exactly when the greedy step does, with its IDs from the map |
| PhrasePruning.ThresholdEligible | cde_analyzer/utils/phrase_pruning.py:20 | a phrase is eligible exactly when it meets both thresholds |
| PhrasePruning.ThresholdBlocked | cde_analyzer/utils/phrase_pruning.py:24-28 | a phrase is blocked exactly when some retained phrase contains it and has at least its IDs |
| PhrasePruning.GreedyStep | cde_analyzer/utils/phrase_pruning.py:18-31 | one step of the greedy pass from the phrases kept so far |
| PhrasePruning.Subsumed | cde_analyzer/utils/phrase_pruning.py:24-28 | the inner loop finds a retained phrase containing the phrase with at least its IDs exactly when there is one, whatever the visiting order |
| PhrasePruning.ThresholdDroppedIff | cde_analyzer/utils/phrase_pruning.py:5-33 | a phrase meeting both thresholds is dropped exactly when it is a substring of a retained phrase ranked before it whose ID set contains its own |
| PhrasePruning.KeptFor | cde_analyzer/utils/phrase_pruning.py:51-55 | the phrases kept for an ID are among that ID's phrases |
| PhrasePruning.PruneByTinyIdSpec | cde_analyzer/utils/phrase_pruning.py:36-64 | each phrase keeps a non-empty subset of its IDs, and no phrase is added |
| PhrasePruning.PruneByTinyId | cde_analyzer/utils/phrase_pruning.py:36-64 | the three loops compute `PruneByTinyIdSpec` |
| PhrasePruning.LongestPerId | cde_analyzer/utils/phrase_pruning.py:48-57 | the loop over the IDs records, for each phrase, exactly the IDs for which it was kept |
| PhrasePruning.DoneStep | cde_analyzer/utils/phrase_pruning.py:49 | the IDs done grow by one per turn |
| PhrasePruning.CollectedStep | cde_analyzer/utils/phrase_pruning.py:49-57 | one more ID keeps the bookkeeping of the IDs done |
| PhrasePruning.ByTinyIdResult | cde_analyzer/utils/phrase_pruning.py:59-64 | after all IDs, the collected map is the result |
| PhrasePruning.ReverseIndex | cde_analyzer/utils/phrase_pruning.py:42-45 | the reverse index maps each ID to exactly the phrases it appears under |
| PhrasePruning.AddId | cde_analyzer/utils/phrase_pruning.py:56-57 | the ID is added under every kept phrase and nothing else changes |
| PhrasePruning.ByTinyIdContained | cde_analyzer/utils/phrase_pruning.py:36-64 | pruning never attributes a phrase to an ID that did not have it |
| PhrasePruning.ByTinyIdKeepsTop | cde_analyzer/utils/phrase_pruning.py:49-57 | the top-ranked phrase of every ID is kept for it |
| PhrasePruning.ByTinyIdCovers | cde_analyzer/utils/phrase_pruning.py:36-64 | every ID of the input is still listed under some phrase |
| PhrasePruning.ByTinyIdRemovedIff | cde_analyzer/utils/phrase_pruning.py:36-64 | a phrase loses an ID exactly when it is a proper substring of a phrase ranked before it that keeps the ID |
| PhraseExtraction.GetWordnetPos | cde_analyzer/utils/phrase_extraction.py:29-39 | a tag starting with J, V, N or R maps to adjective, verb, noun or adverb respectively, and any other tag to None |
| PhraseExtraction.Filter | cde_analyzer/utils/phrase_extraction.py:65 | a list comprehension with a condition keeps exactly the words that pass it |
| PhraseExtraction.FilterCounts | cde_analyzer/utils/phrase_extraction.py:65 | each kept word is kept as often as it occurs, and no other word is kept |
| PhraseExtraction.FilterAppend | cde_analyzer/utils/phrase_extraction.py:87 | filtering keeps order: it distributes over concatenation |
| PhraseExtraction.RmStopwords | cde_analyzer/utils/phrase_extraction.py:64-72 | the result holds exactly the words that are not stopwords |
| PhraseExtraction.RmStopwordsCounts | cde_analyzer/utils/phrase_extraction.py:64-72 | every other word keeps its number of occurrences, and stopwords are gone |
| PhraseExtraction.TokenizeText | cde_analyzer/utils/phrase_extraction.py:74-92 | the tokens are exactly the alphanumeric tokens of the lower-cased text; an empty result is the same `[]` as the early return |
| PhraseExtraction.Lemmas | cde_analyzer/utils/phrase_extraction.py:50-57 | one lemma per token, and a token whose tag has no WordNet part of speech is kept as it is |
| PhraseExtraction.MakeLemma | cde_analyzer/utils/phrase_extraction.py:42-61 | the loop over the tagged tokens computes `Lemmas`; `remove_stopwords` is ignored |
| PhraseExtraction.CleanWordsAreWords | cde_analyzer/utils/phrase_extraction.py:107-131 | with a well-behaved language service, every word phrases are built from is non-empty and has no whitespace |
| PhraseExtraction.SliceBound | cde_analyzer/utils/phrase_extraction.py:142 | a Python slice bound is clamped into the list, unchanged when already inside |
| PhraseExtraction.PySlice | cde_analyzer/utils/phrase_extraction.py:142 | `words[a:b]` is the plain slice when the bounds lie inside the list, and never longer than the list |
| PhraseExtraction.Windows | cde_analyzer/utils/phrase_extraction.py:141-142 | one window per start position |
| PhraseExtraction.WindowsStep | cde_analyzer/utils/phrase_extraction.py:141-142 | appending the next window extends the windows of the positions before it |
| PhraseExtraction.WindowsAt | cde_analyzer/utils/phrase_extraction.py:141-142 | the `i`-th window of a size starts at word `i` |
| PhraseExtraction.WindowsMember | cde_analyzer/utils/phrase_extraction.py:141-142 | every window of a size is the window at one of the start positions |
| PhraseExtraction.NGramsBelowStep | cde_analyzer/utils/phrase_extraction.py:140-142 | one more size appends its windows after those of the smaller sizes |
| PhraseExtraction.NGrams | cde_analyzer/utils/phrase_extraction.py:139-145 | fewer words than `min_words` give no phrase |
| PhraseExtraction.NGramsCount | cde_analyzer/utils/phrase_extraction.py:139-145 | `n` words give `(n - m + 1)(n - m + 2) / 2` phrases of at least `m` words |
| PhraseExtraction.NGramsBelowCount | cde_analyzer/utils/phrase_extraction.py:140-142 | each size gives `n - size + 1` windows |
| PhraseExtraction.WindowCountClosed | cde_analyzer/utils/phrase_extraction.py:140-141 | the closed form of the number of windows over a range of sizes |
| PhraseExtraction.NGramsBelowMember | cde_analyzer/utils/phrase_extraction.py:140-142 | every phrase is a window of a size in the range that lies inside the word list |
| PhraseExtraction.WindowWordCount | cde_analyzer/utils/phrase_extraction.py:142 | a window of `size` words that lies inside the list has exactly `size` words |
| PhraseExtraction.PhraseWordCounts | cde_analyzer/utils/phrase_extraction.py:95-145 | every phrase of a text has between `min_words` and all of the cleaned words, when `min_words >= 1` |
| PhraseExtraction.ExtractPhrases | cde_analyzer/utils/phrase_extraction.py:95-145 | the phrases are the windows of the cleaned words, by increasing size, then by position |
| PhraseExtraction.JoinWindows | cde_analyzer/utils/phrase_extraction.py:139-145 | the outer loop over the sizes computes `NGrams` |
| PhraseExtraction.AppendWindows | cde_analyzer/utils/phrase_extraction.py:141-142 | the inner loop appends the window at every start position, left to right |
| PhraseExtraction.Add | cde_analyzer/utils/phrase_extraction.py:207-208 | after `d[path][phrase].add(x)`, `x` is filed under that path and phrase |
| PhraseExtraction.AddHolds | cde_analyzer/utils/phrase_extraction.py:207-208 | adding files `x` there and leaves every other entry as it was |
| PhraseExtraction.AddWellFormed | cde_analyzer/utils/phrase_extraction.py:162-165 | a defaultdict filled only by `add` has no empty entry |
| PhraseExtraction.AddAllHolds | cde_analyzer/utils/phrase_extraction.py:206-208 | adding a list of phrases files `x` under each of them and under nothing else |
| PhraseExtraction.ItemMatches | cde_analyzer/utils/phrase_extraction.py:148-237 | every mined field has a listed key and sits below the starting path |
| PhraseExtraction.FieldMatches | cde_analyzer/utils/phrase_extraction.py:190-235 | every field mined from a dict's entries has a listed key and sits below the dict's path |
| PhraseExtraction.FieldMatch | cde_analyzer/utils/phrase_extraction.py:191-235 | one entry yields itself if it is a listed string field, else the fields mined from its contents |
| PhraseExtraction.ElemMatches | cde_analyzer/utils/phrase_extraction.py:172-186 | every field mined from a list's elements sits below the list's path |
| PhraseExtraction.StringListIgnored | cde_analyzer/utils/phrase_extraction.py:172-188 | a list of strings is never mined, even under a listed key |
| PhraseExtraction.TopFieldKeepsFlag | cde_analyzer/utils/phrase_extraction.py:193-198 | a listed string field at the top of a dict is mined with the caller's `lemmatize` flag |
| PhraseExtraction.NestedDictLemmatizes | cde_analyzer/utils/phrase_extraction.py:224-235 | a listed field one dict further down is always mined with lemmatization on, whatever the caller asked |
| PhraseExtraction.ListPassesVerbatim | cde_analyzer/utils/phrase_extraction.py:172-185 | a dict inside a list walked directly takes the list's `verbatim` flag as its `lemmatize` flag |
| PhraseExtraction.TallyAppend | cde_analyzer/utils/phrase_extraction.py:190-237 | filing two runs of mined fields in turn is filing their concatenation |
| PhraseExtraction.TallyHolds | cde_analyzer/utils/phrase_extraction.py:206-208 | a label sits under a path and phrase exactly when it did before or some mined field at that path produced that phrase with that label |
| PhraseExtraction.AddAllWellFormed | cde_analyzer/utils/phrase_extraction.py:206-208 | adding phrases keeps the maps free of empty entries |
| PhraseExtraction.TallyWellFormed | cde_analyzer/utils/phrase_extraction.py:206-208 | filing keeps the maps free of empty entries, so every phrase has at least one label |
| PhraseExtraction.Collector.constructor | cde_analyzer/utils/phrase_extraction.py:162-165 | both maps start empty |
| PhraseExtraction.Collector.Record | cde_analyzer/utils/phrase_extraction.py:206-208 | files every phrase of a field under its path, with the tinyId in one map and the field's text in the other |
| PhraseExtraction.Collector.Collect | cde_analyzer/utils/phrase_extraction.py:148-237 | the recursive walk updates both maps in place to `Tally` of the fields it mines |
| PhraseExtraction.Collector.CollectFields | cde_analyzer/utils/phrase_extraction.py:190-237 | the loop over a dict's entries files the fields mined from them |
| PhraseExtraction.Collector.CollectField | cde_analyzer/utils/phrase_extraction.py:191-235 | one entry is mined if it is a listed string, and walked if it is a list or dict |
| PhraseExtraction.Collector.CollectElems | cde_analyzer/utils/phrase_extraction.py:172-186 | the loop over a list's elements files the fields mined from them |
| PhraseExtractor.StrategyOf | cde_analyzer/logic/phrase_extractor.py:61-64 | "tinyid" prunes per ID, "global" prunes globally, and any other name leaves the map as it is |
| PhraseExtractor.TinyIdOf | cde_analyzer/logic/phrase_extractor.py:40-42 | a record is used exactly when it has a truthy string `tinyId`, and then that is its ID |
| PhraseExtractor.GatheredHolds | cde_analyzer/logic/phrase_extractor.py:39-53 | an ID is filed under a path and phrase exactly when some record has that tinyId and one of its mined fields at the path yields the phrase; records without a tinyId contribute nothing |
| PhraseExtractor.GatheredStep | cde_analyzer/logic/phrase_extractor.py:39-53 | the last record adds an ID exactly when the record is that ID's and yields the phrase at the path |
| PhraseExtractor.GatheredWellFormed | cde_analyzer/logic/phrase_extractor.py:35-53 | `final_result` has no path without phrases and no phrase without IDs |
| PhraseExtractor.LexOrder | cde_analyzer/logic/phrase_extractor.py:67 | `sorted()` on strings orders them strictly and totally by code point |
| PhraseExtractor.Pruned | cde_analyzer/logic/phrase_extractor.py:61-64 | pruning only removes phrases and IDs |
| PhraseExtractor.Filtered | cde_analyzer/logic/phrase_extractor.py:66-70 | exactly the phrases with at least `min_ids` IDs, each with all its IDs as a sorted list of the same size |
| PhraseExtractor.FilteredDistinct | cde_analyzer/logic/phrase_extractor.py:67 | a sorted ID list holds no ID twice |
| PhraseExtractor.FilterIds | cde_analyzer/logic/phrase_extractor.py:66-70 | the comprehension computes `Filtered` |
| PhraseExtractor.PerPath | cde_analyzer/logic/phrase_extractor.py:60-70 | there is one filtered map per path of `final_result` |
| PhraseExtractor.PathOutput | cde_analyzer/logic/phrase_extractor.py:61-70 | one path's map is pruned, then filtered and sorted |
| PhraseExtractor.FinishedSound | cde_analyzer/logic/phrase_extractor.py:60-80 | every emitted ID list is sorted, has at least `min_ids` entries, and every ID in it was filed under that path and phrase |
| PhraseExtractor.FinishedUnpruned | cde_analyzer/logic/phrase_extractor.py:60-80 | without pruning, a phrase appears under a path exactly when at least `min_ids` distinct IDs were filed under it there |
| PhraseExtractor.Finish | cde_analyzer/logic/phrase_extractor.py:60-80 | the corrected loop: a path is present exactly when its filtered map is non-empty, and then holds that map |
| PhraseExtractor.FinishStep | cde_analyzer/logic/phrase_extractor.py:72-73 | one path is stored when its filtered map is non-empty and skipped otherwise |
| PhraseExtractor.FinishedOnAll | cde_analyzer/logic/phrase_extractor.py:60-80 | a map holding exactly the non-empty filtered maps is the output |
| PhraseExtractor.FinishAsWritten | cde_analyzer/logic/phrase_extractor.py:60-80 | the loop as written, with `pruned` carried from path to path, computes `AsWrittenPass` |
| PhraseExtractor.AsWrittenPassStep | cde_analyzer/logic/phrase_extractor.py:72-80 | one more path of the loop as written |
| PhraseExtractor.AsWrittenErrStays | cde_analyzer/logic/phrase_extractor.py:79 | once the loop has raised, it stays raised |
| PhraseExtractor.AsWrittenKeepsFiltered | cde_analyzer/logic/phrase_extractor.py:72-80 | where a path's filtered map is non-empty, the loop as written stores exactly that map there |
| PhraseExtractor.AsWrittenAgrees | cde_analyzer/logic/phrase_extractor.py:72-80 | when every path keeps some phrase, the loop as written gives the intended output |
| PhraseExtractor.AsWrittenStores | cde_analyzer/logic/phrase_extractor.py:72-80 | when every path keeps some phrase, the loop as written stores each path's own map and nothing else |
| PhraseExtractor.AsWrittenStale | cde_analyzer/logic/phrase_extractor.py:72-80 | after a path `a` with phrases left, a path `b` with none receives `a`'s phrases, although `b` is absent from the intended output |
| PhraseExtractor.AsWrittenUnbound | cde_analyzer/logic/phrase_extractor.py:72-80 | when the first path has no phrase left, the loop as written raises UnboundLocalError |
| PhraseExtractor.CollectAll | cde_analyzer/logic/phrase_extractor.py:19-80 | the mining loop over the records with a tinyId, then the corrected post-processing, computes `Finished` of `Gathered` |
| PhraseExtractor.CollectAllSound | cde_analyzer/logic/phrase_extractor.py:19-80 | every ID listed under a path and phrase is the tinyId of a record one of whose mined fields at that path yields the phrase |
| PhraseExtractor.PruneSubphrases | cde_analyzer/logic/phrase_extractor.py:106-123 | "none" returns the map, "tinyid", "global" and "threshold" apply that pruning, any other name is a ValueError; a pruned map only loses phrases and IDs |
| LegacyExtractor.NounLemmas | cde_analyzer/logic/extractor.py:44 | a word is in the result exactly when it is the noun lemma of some alphanumeric token |
| LegacyExtractor.LegacyCleanWords | cde_analyzer/logic/extractor.py:41-53 | with stopword removal on, no stopword is left |
| LegacyExtractor.LegacyWordOrigin | cde_analyzer/logic/extractor.py:41-53 | every word is the lemma of an alphanumeric token of the lower-cased text: lemmatized twice when `lemmatize` is set, once (and itself alphanumeric) otherwise |
| LegacyExtractor.StopwordTestsLemma | cde_analyzer/logic/extractor.py:44-52 | stopwords are removed after lemmatization, so a token whose double lemma is not a stopword is kept as that lemma |
| LegacyExtractor.LegacyExtractPhrases | cde_analyzer/logic/extractor.py:37-61 | the phrases are every window of at least `min_words` consecutive clean words, shortest windows first, left to right |
| LegacyExtractor.LegacyItemMatches | cde_analyzer/logic/extractor.py:64-146 | every mined field has a listed key at or below the starting path; only fields of the caller's own dict can see `lemmatize=False` |
| LegacyExtractor.LegacyFieldMatches | cde_analyzer/logic/extractor.py:100-146 | the same for the entries of one dict |
| LegacyExtractor.LegacyFieldMatch | cde_analyzer/logic/extractor.py:101-144 | a named string is mined at `parent.key`; lists and dicts are walked with the flag falling back to True |
| LegacyExtractor.LegacyElemMatches | cde_analyzer/logic/extractor.py:84-96 | list elements are walked under `.*`, always with lemmatization on |
| LegacyExtractor.NestedListLemmatizes | cde_analyzer/logic/extractor.py:84-96 | a named string in a list inside a list is lemmatized by the older walk even when the caller asked not to, unlike in the newer walk |
| LegacyExtractor.LegacyCollector.constructor | cde_analyzer/logic/extractor.py:76-77 | the phrase map starts empty |
| LegacyExtractor.LegacyCollector.Record | cde_analyzer/logic/extractor.py:117-119 | each phrase of a mined field gets the tinyId added under its path |
| LegacyExtractor.LegacyCollector.Collect | cde_analyzer/logic/extractor.py:64-146 | the in-place walk adds exactly the tally of the fields `LegacyItemMatches` lists |
| LegacyExtractor.LegacyCollector.CollectFields | cde_analyzer/logic/extractor.py:100-144 | the entry loop adds the tally of `LegacyFieldMatches` |
| LegacyExtractor.LegacyCollector.CollectField | cde_analyzer/logic/extractor.py:101-144 | one entry adds the tally of `LegacyFieldMatch` |
| LegacyExtractor.LegacyCollector.CollectElems | cde_analyzer/logic/extractor.py:84-96 | the element loop adds the tally of `LegacyElemMatches` |
| LegacyExtractor.LegacyCollectAll | cde_analyzer/logic/extractor.py:149-205 | walks every record with a tinyId, then post-processes each path with per-ID pruning when `prune_subphrases` is set, with the stale-`pruned` defect corrected |
| PhraseStripper.Child | cde_analyzer/logic/phrase_stripper.py:46 | a child reached by one key or position is a strictly smaller part of the tree |
| PhraseStripper.Wrap | cde_analyzer/logic/phrase_stripper.py:110-115 | Python's `current[index]` reads position `index` when it is not negative, and counts from the end otherwise |
| PhraseStripper.RewrittenSelf | cde_analyzer/logic/phrase_stripper.py:124-138 | rewriting a value itself changes exactly the place it is at |
| PhraseStripper.ReplaceAt | cde_analyzer/logic/phrase_stripper.py:85-121 | `_recurse_and_replace` never adds or removes a key and never changes a list's length; an escaping exception is returned |
| PhraseStripper.ReplaceInDict | cde_analyzer/logic/phrase_stripper.py:100-107 | on a dict the result has the same keys: a missing key changes nothing |
| PhraseStripper.ReplaceInList | cde_analyzer/logic/phrase_stripper.py:108-117 | on a list the result has the same length: `int(key)` failing or an index not below the length changes nothing |
| PhraseStripper.ReplaceEach | cde_analyzer/logic/phrase_stripper.py:94-97 | the `*` loop rewrites every element with the rest of the path, or raises the first element's exception |
| PhraseStripper.ReplaceAtLeaves | cde_analyzer/logic/phrase_stripper.py:85-138 | place by place: every place is still there, a scalar at a place the path addresses becomes its rewrite (every occurrence of the phrase replaced in a string), every other scalar keeps its value |
| PhraseStripper.ListSelects | cde_analyzer/logic/phrase_stripper.py:108-115 | on a list a segment other than `*` selects the position `int(key)` reads, exactly when it is in range |
| PhraseStripper.ReplaceAtOk | cde_analyzer/logic/phrase_stripper.py:108-117 | only a negative index can raise: a path without one always completes |
| PhraseStripper.PathParts | cde_analyzer/logic/phrase_stripper.py:31 | the split of a dotted path outside brackets has at least one part |
| PhraseStripper.PathPartsJoin | cde_analyzer/logic/phrase_stripper.py:31 | joining the parts with "." gives the path back |
| PhraseStripper.PathPartsPlain | cde_analyzer/logic/phrase_stripper.py:31 | without brackets the split is `path.split(".")` |
| PhraseStripper.WordPrefix | cde_analyzer/logic/phrase_stripper.py:40 | the `\w+` group is the longest run of word characters at the start of the segment |
| PhraseStripper.DigitPrefix | cde_analyzer/logic/phrase_stripper.py:40 | the `\d+` group is the longest run of digits at the start |
| PhraseStripper.ParsePart | cde_analyzer/logic/phrase_stripper.py:39-43 | a matched segment has a non-empty key that starts the segment |
| PhraseStripper.ParsePartRender | cde_analyzer/logic/phrase_stripper.py:39-43 | parsing a segment written as `key`, `key[*]` or `key[n]` gives back its key and subscript |
| PhraseStripper.NavigateStrip | cde_analyzer/logic/phrase_stripper.py:35-65 | `_navigate_and_strip` never adds or removes a key and never changes a list's length |
| PhraseStripper.NavigateValue | cde_analyzer/logic/phrase_stripper.py:50-65 | rewriting `current[key]` by its subscript keeps its shape |
| PhraseStripper.NavigateEach | cde_analyzer/logic/phrase_stripper.py:55-58 | `[*]` navigates every element of the list with the rest of the segments |
| PhraseStripper.NavigateLeaves | cde_analyzer/logic/phrase_stripper.py:35-65 | place by place: a string at a place the segments address loses every occurrence of the phrase, every other scalar keeps its value |
| PhraseStripper.NavigateValueLeaves | cde_analyzer/logic/phrase_stripper.py:50-65 | the same for the value under a key and its subscript |
| PhraseStripper.EveryLastStripsNothing | cde_analyzer/logic/phrase_stripper.py:55-58 | `field[*]` as the last segment strips nothing, since each element gets an empty path |
| PhraseStripper.Record.constructor | cde_analyzer/logic/phrase_stripper.py:178 | the record holds the dumped data |
| PhraseStripper.Record.TraverseAndReplacePhrase | cde_analyzer/logic/phrase_stripper.py:68-82 | the record becomes `ReplaceAt` of the old data along `path.split(".")`, or the escaping exception is returned |
| PhraseStripper.Record.DeletePhraseAtPath | cde_analyzer/logic/phrase_stripper.py:28-32 | the record becomes `NavigateStrip` of the old data along the bracket-aware split |
| PhraseStripper.StripPhrases | cde_analyzer/logic/phrase_stripper.py:172-189 | every record in order has every (path, phrase) pair applied with "" as replacement, or the first exception is raised |
| PhraseStripper.StripAllStep | cde_analyzer/logic/phrase_stripper.py:182-185 | one more pair is one more `traverse_and_replace_phrase` |
| PhraseStripper.StripEachStep | cde_analyzer/logic/phrase_stripper.py:177-188 | one more record cleaned is appended |
| PhraseStripper.StripEachErr | cde_analyzer/logic/phrase_stripper.py:177-188 | a record that raises makes `strip_phrases` raise that exception |
| PhraseStripper.StripAllErrStays | cde_analyzer/logic/phrase_stripper.py:182-185 | once a pair raises, no later pair is applied |
| PhraseStripper.StripEachErrStays | cde_analyzer/logic/phrase_stripper.py:177-188 | once a record raises, no later record is cleaned |
| PhraseStripper.StripAllAppend | cde_analyzer/logic/phrase_stripper.py:182-185 | the pairs act in list order: applying `a` then `b` is applying `a + b` |
| PhraseStripper.StripAllShrinks | cde_analyzer/logic/phrase_stripper.py:172-189 | stripping only removes text: every place is still there, a non-string scalar keeps its value, a string stays a string no longer than before |
| PhraseStripper.ReplaceIfMatchShrinks | cde_analyzer/logic/phrase_stripper.py:127-132 | stripping one value never lengthens it |
| PhraseStripper.ReplaceAllShrinks | cde_analyzer/logic/phrase_stripper.py:132 | `value.replace(phrase, "")` is never longer than `value` |
| PhraseStripper.NegativeIndexFromEnd | cde_analyzer/logic/phrase_stripper.py:108-113 | a last segment `-k` with `k <= len` rewrites element `len - k` |
| PhraseStripper.BelowStartRaises | cde_analyzer/logic/phrase_stripper.py:108-117 | an index below `-len` passes the guard: the IndexError is caught as the last segment, and escapes before further segments |
| PhraseStripper.StarIsNotInt | cde_analyzer/logic/phrase_stripper.py:94-110 | `*` never reads as a list index |
| PhraseStripper.TrailingTextIgnored | cde_analyzer/logic/phrase_stripper.py:40 | `re.match` anchors only at the start: text after the key that is not a subscript is ignored |
| PhraseStripper.ReplaceIfMatch | cde_analyzer/logic/phrase_stripper.py:124-138 | `_replace_if_match` on one value: a string has every occurrence of the phrase replaced, anything else is kept; `ReplaceIfMatchShrinks` states that stripping never lengthens it |
| PhraseStripper.StripAll | cde_analyzer/logic/phrase_stripper.py:182-185 | the phrase-map pairs applied to one model in order; `StripAllStep`, `StripAllErrStays` and `StripAllShrinks` state one step, error propagation and that no path is added or removed |
| PhraseStripper.StripEach | cde_analyzer/logic/phrase_stripper.py:172-189 | `strip_phrases` over the list of models; `StripEachStep` and `StripEachErr` state how one model extends the result or stops it |

## Left out

- NLTK internals (`word_tokenize`, `pos_tag`, `WordNetLemmatizer`, the stopword list, `nltk.download`): foreign library calls. They are fields of a parameter datatype, and the properties hold for every choice of them.
- `str.lower`, `str.isalnum`, Python's Unicode `\d` and `\w`: Unicode tables. They are parameters, or ASCII-only predicates where a regular expression in the source uses them.
- The "regex" match type of `match_condition` and `classify_type` in `counter.py`: a regular-expression engine and float parsing. Both are function parameters of the query.
- `eval` of `logic_expr` in `count_matching_fields`: arbitrary Python. The model covers the path without a `logic_expr`.
- Logging, `print`, `repr` and the global verbosity: side effects only.
- Pydantic `model_dump`, `model_validate` and `vars()`: a record is its plain-data `Json` tree, and `tinyId` is read from its top-level dict.
- HTML stripping, `lemma_data` and `enc_base85`: library wrappers, and host byte order for the Base85 packing.
- `load_phrase_map`, `load_path_schema`, `load_tinyids`, `save_data`, the CLI actions other than `fix_keys`, and `register_subparser`/`run_action`: file I/O and command-line plumbing.
- The JSON branch of `write_output`: `json.dumps` is not part of this model, so the output says which data would be dumped. The final write to a file or to standard output is left out as well.
- The verbatim branch of the newer `collect_all_phrase_occurrences` (`phrase_extractor.py` lines 82-101): it calls `safe_nested_append`, which is not part of this model. The walker's `verbatim_results` map is modelled.
- PhraseStripper.Record.TraverseAndReplacePhrase: when an `IndexError` escapes, the model returns the exception. It does not say which earlier rewrites the Python code had already made in place before raising.
- PhraseStripper.Record.TraverseAndReplacePhrase: records are values, so aliasing between parts of a record (one list object reachable twice) is not modelled.
- LemmaFasta.GenVocab: the insertion order of the `vocab` dict is modelled only through the ranked order it is built from. The dict itself is a map.
- DesignationParser.ExtractNameAndQuestion: tags are assumed to be strings (`AllTextTags`), as the record schema declares. `re.search` on a non-string raises, and that case is not modelled.
- LemmaFasta.EncVocab: every field other than `tinyId` is assumed to be a list of tokens (`Tokenized`), as `gen_vocab` produces. Other values are not modelled: Python would iterate a string character by character and a dict by its keys.
- PathUtils.ParseSigned: Python's `int()` also accepts non-ASCII decimal digits (Arabic-Indic digits, for example) and reads them as their values. The model accepts ASCII digits only, so such a list index is a miss here.
- Non-integer numbers: `Num` holds an integer, so floats in a record (`maxValue`, `minValue`), their `str` and the falsiness of `0.0` are not represented.
- Counter.Glob: wildcard field names are assumed free of regular-expression syntax other than `.` and `*`. Other metacharacters (`+ ? ^ $ ( [ | \ {`) keep their regex meaning in Python, or make it raise, but are read literally here.
- Counter.GlobSelf: holds of the literal reading above; in Python a name holding other regex syntax need not match itself.
- Json.StrRepr: every non-ASCII character is taken as printable. Python's `repr` escapes the non-printable ones (U+0085 or U+2028, for example) as `\x..`, `\u....` or `\U........`.
- Json.PyStr: inherits that gap from `Json.StrRepr`. The `str` of a list or dict holding such a character writes it unescaped here.
- Helpers.SafeNestedIncrement: dicts are values, written back from the bottom up. The aliasing of `current` into `d` and the `{}` entries already stored in `d` before a `TypeError` is raised are not described.
- The "duplicate token" branch of `gen_vocab`: it is unreachable. `LemmaFasta` proves that every token is entered once, so the branch has no model.

## Findings

| source | as written | input that shows it | evidently intended | confidence | as-written member | corrected member |
|---|---|---|---|---|---|---|
| cde_analyzer/logic/phrase_extractor.py:72-80 | `pruned` is assigned only inside `if filtered:`, yet `if pruned:` stores it for every path | two paths `a` then `b`, where `a` keeps a phrase after the `min_ids` filter and `b` keeps none: `output["b"]` receives `a`'s phrases | a path whose filtered map is empty is left out of the output | not executed | PhraseExtractor.AsWrittenStale | PhraseExtractor.Finish |
| cde_analyzer/logic/phrase_extractor.py:72-80 | `if pruned:` reads `pruned` even when no earlier path assigned it | a first path whose phrases all have fewer than `min_ids` IDs: UnboundLocalError | the path is skipped and the loop goes on | not executed | PhraseExtractor.AsWrittenUnbound | PhraseExtractor.Finish |
| cde_analyzer/logic/extractor.py:195-203 | the older aggregator has the same stale `pruned` | as in the first row | as in the first row | not executed | PhraseExtractor.AsWrittenStale | PhraseExtractor.Finish |
