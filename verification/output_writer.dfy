/**
 * The delimited branch of `write_output` in `utils/output_writer.py`: a
 * `{path: {phrase: [tinyId, ...]}}` dict becomes a header line and one line
 * per (path, phrase) pair, fields joined by the separator with no quoting.
 * Dicts keep insertion order, so they are sequences of entries here.
 */
module OutputWriter {
  import opened Wrappers
  import opened Strings

  datatype PhraseIds = PhraseIds(phrase: string, tids: seq<string>)
  datatype PathPhrases = PathPhrases(path: string, phrases: seq<PhraseIds>)

  /**
   * What `write_output` prints or writes: `json.dumps(data, indent=2)` for
   * "json" (the serializer is not part of this model), or delimited text.
   */
  datatype Output = JsonDump(data: seq<PathPhrases>) | Text(text: string)

  const HeaderFields: seq<string> := ["path", "phrase", "tinyIDs"]

  /** `[path, phrase, ";".join(tids)]`. */
  function Row(path: string, p: PhraseIds): seq<string> {
    [path, p.phrase, Join(p.tids, ";")]
  }

  /** The rows contributed by one path, in the order of its phrases. */
  function PhraseRows(path: string, ps: seq<PhraseIds>): (r: seq<seq<string>>)
    ensures |r| == |ps|
  {
    if ps == [] then [] else PhraseRows(path, ps[..|ps| - 1]) + [Row(path, ps[|ps| - 1])]
  }

  /** `lines` after the nested loops over `data.items()` and `phrases.items()`. */
  function Rows(data: seq<PathPhrases>): seq<seq<string>> {
    if data == [] then []
    else
      var last := data[|data| - 1];
      Rows(data[..|data| - 1]) + PhraseRows(last.path, last.phrases)
  }

  /** `[sep.join(row) for row in lines]`. */
  function JoinRows(rows: seq<seq<string>>, sep: string): (r: seq<string>)
    ensures |r| == |rows|
  {
    seq(|rows|, k requires 0 <= k < |rows| => Join(rows[k], sep))
  }

  /** The text of the delimited output: header line, then the rows, joined by newlines. */
  function Render(data: seq<PathPhrases>, sep: string): string {
    Join([Join(HeaderFields, sep)] + JoinRows(Rows(data), sep), "\n")
  }

  /** What `write_output(data, format)` produces, or the error it raises. */
  function Written(data: seq<PathPhrases>, format: string): Result<Output> {
    if format == "json" then Ok(JsonDump(data))
    else if format == "csv" then Ok(Text(Render(data, ",")))
    else if format == "tsv" then Ok(Text(Render(data, "\t")))
    else Err(ValueError("Unsupported output format"))
  }

  /** `write_output` without the final write to a file or to standard output. */
  method WriteOutput(data: seq<PathPhrases>, format: string) returns (r: Result<Output>)
    ensures r == Written(data, format)
  {
    if format == "json" {
      return Ok(JsonDump(data));
    } else if format == "csv" || format == "tsv" {
      var sep := if format == "csv" then "," else "\t";
      var lines: seq<seq<string>> := [];
      for i := 0 to |data|
        invariant lines == Rows(data[..i])
      {
        var path := data[i].path;
        var phrases := data[i].phrases;
        for j := 0 to |phrases|
          invariant lines == Rows(data[..i]) + PhraseRows(path, phrases[..j])
        {
          assert phrases[..j + 1][..j] == phrases[..j];
          lines := lines + [[path, phrases[j].phrase, Join(phrases[j].tids, ";")]];
        }
        assert phrases[..|phrases|] == phrases;
        assert data[..i + 1][..i] == data[..i];
      }
      assert data[..|data|] == data;
      return Ok(Text(Join([Join(HeaderFields, sep)] + JoinRows(lines, sep), "\n")));
    } else {
      return Err(ValueError("Unsupported output format"));
    }
  }

  /** The number of (path, phrase) pairs. */
  function TotalPhrases(data: seq<PathPhrases>): nat {
    if data == [] then 0 else TotalPhrases(data[..|data| - 1]) + |data[|data| - 1].phrases|
  }

  lemma {:induction false} RowsAppend(a: seq<PathPhrases>, b: seq<PathPhrases>)
    ensures Rows(a + b) == Rows(a) + Rows(b)
    decreases |b|
  {
    if b == [] {
      assert a + b == a;
    } else {
      var init := b[..|b| - 1];
      var last := b[|b| - 1];
      assert (a + b)[..|a + b| - 1] == a + init && (a + b)[|a + b| - 1] == last;
      RowsAppend(a, init);
    }
  }

  lemma {:induction false} PhraseRowsAt(path: string, ps: seq<PhraseIds>, j: nat)
    requires j < |ps|
    ensures PhraseRows(path, ps)[j] == Row(path, ps[j])
    decreases |ps|
  {
    if j < |ps| - 1 {
      PhraseRowsAt(path, ps[..|ps| - 1], j);
    }
  }

  /** One line per (path, phrase) pair: there are as many rows as pairs. */
  lemma {:induction false} RowsLength(data: seq<PathPhrases>)
    ensures |Rows(data)| == TotalPhrases(data)
    decreases |data|
  {
    if data != [] {
      RowsLength(data[..|data| - 1]);
    }
  }

  /**
   * Rows come in dict order: the `j`-th phrase of the `i`-th path gives the
   * row after all rows of the earlier paths, holding the path, the phrase
   * and the IDs joined by ";", verbatim.
   */
  lemma RowsAt(data: seq<PathPhrases>, i: nat, j: nat)
    requires i < |data| && j < |data[i].phrases|
    ensures TotalPhrases(data[..i]) + j < |Rows(data)|
    ensures Rows(data)[TotalPhrases(data[..i]) + j] == [data[i].path, data[i].phrases[j].phrase, Join(data[i].phrases[j].tids, ";")]
  {
    var before := data[..i];
    var here := [data[i]];
    var after := data[i + 1..];
    assert data == before + here + after;
    RowsAppend(before + here, after);
    RowsAppend(before, here);
    RowsLength(before);
    assert here[..0] == [];
    PhraseRowsAt(data[i].path, data[i].phrases, j);
  }

  /** No part of a join contains `c` when no part and not the separator does. */
  lemma {:induction false} JoinFree(parts: seq<string>, sep: string, c: char)
    requires forall k | 0 <= k < |parts| :: c !in parts[k]
    requires c !in sep
    ensures c !in Join(parts, sep)
    decreases |parts|
  {
    if |parts| > 1 {
      JoinFree(parts[1..], sep, c);
    }
  }

  /** No path, phrase or tinyId holds `c`. */
  predicate FieldsFree(data: seq<PathPhrases>, c: char) {
    forall i | 0 <= i < |data| ::
      c !in data[i].path &&
      forall j | 0 <= j < |data[i].phrases| ::
        c !in data[i].phrases[j].phrase && forall t | t in data[i].phrases[j].tids :: c !in t
  }

  /** Every field of every row is free of `c` when the input's fields are. */
  lemma {:induction false} RowsFreeAll(data: seq<PathPhrases>, c: char)
    requires FieldsFree(data, c) && c != ';'
    ensures forall k | 0 <= k < |Rows(data)| :: forall f | f in Rows(data)[k] :: c !in f
    decreases |data|
  {
    if data != [] {
      var init := data[..|data| - 1];
      var last := data[|data| - 1];
      RowsFreeAll(init, c);
      var pr := PhraseRows(last.path, last.phrases);
      forall j | 0 <= j < |pr| ensures forall f | f in pr[j] :: c !in f {
        PhraseRowsAt(last.path, last.phrases, j);
        var tids := last.phrases[j].tids;
        assert forall k | 0 <= k < |tids| :: tids[k] in tids;
        JoinFree(tids, ";", c);
      }
    }
  }

  /**
   * The delimited output read back line by line: when no field holds a
   * newline, it is the header followed by one line per (path, phrase) pair,
   * so it has `1 + TotalPhrases(data)` lines.
   */
  lemma OutputLines(data: seq<PathPhrases>, sep: string)
    requires FieldsFree(data, '\n') && '\n' !in sep
    ensures Split(Render(data, sep), '\n') == [Join(HeaderFields, sep)] + JoinRows(Rows(data), sep)
    ensures |Split(Render(data, sep), '\n')| == 1 + TotalPhrases(data)
  {
    var rows := Rows(data);
    var lines := [Join(HeaderFields, sep)] + JoinRows(rows, sep);
    RowsFreeAll(data, '\n');
    forall k | 0 <= k < |lines| ensures '\n' !in lines[k] {
      if k == 0 {
        JoinFree(HeaderFields, sep, '\n');
      } else {
        var row := rows[k - 1];
        assert forall m | 0 <= m < |row| :: row[m] in row;
        JoinFree(row, sep, '\n');
      }
    }
    SplitJoin(lines, '\n');
    RowsLength(data);
  }

  /** The first line names the columns, and the separator is "," for csv and a tab for tsv. */
  lemma HeaderFirst(data: seq<PathPhrases>, format: string)
    requires format == "csv" || format == "tsv"
    ensures Written(data, format).Ok? && Written(data, format).value.Text?
    ensures var sep := if format == "csv" then "," else "\t";
      Written(data, format).value.text[..|"path" + sep + "phrase" + sep + "tinyIDs"|] == "path" + sep + "phrase" + sep + "tinyIDs"
  {
    var sep := if format == "csv" then "," else "\t";
    var header := Join(HeaderFields, sep);
    assert HeaderFields[1..][1..] == ["tinyIDs"];
    assert Join(HeaderFields[1..], sep) == "phrase" + sep + "tinyIDs";
    assert header == "path" + sep + "phrase" + sep + "tinyIDs";
    var rest := JoinRows(Rows(data), sep);
    if rest != [] {
      assert ([header] + rest)[1..] == rest;
    } else {
      assert [header] + rest == [header];
    }
  }

  /** Only "json", "csv" and "tsv" are accepted; anything else raises ValueError. */
  lemma UnsupportedFormat(data: seq<PathPhrases>, format: string)
    ensures Written(data, format).Err? <==> format !in {"json", "csv", "tsv"}
    ensures Written(data, format).Err? ==> Written(data, format).error == ValueError("Unsupported output format")
    ensures format == "json" ==> Written(data, format) == Ok(JsonDump(data))
  {
  }
}
