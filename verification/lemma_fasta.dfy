/**
 * `utils/lemma_fasta.py`: the vocabulary of a table of tokenised records
 * (`gen_vocab`), the encoding of each record's tokens as vocabulary codes
 * (`enc_vocab`), and the concatenation of a record's codes into one payload
 * (`append_dict_values`).
 *
 * A record is a dict: `tinyId` holds its identifier, every other key a list
 * of tokens (after `enc_vocab`, a list of codes). A `Counter` is a multiset.
 */
module LemmaFasta {
  import opened Wrappers
  import opened Strings
  import opened Sorting
  import Seqs

  datatype Value = Text(s: string) | Tokens(ts: seq<string>) | Codes(cs: seq<int>)

  datatype Entry = Entry(key: string, value: Value)

  /** A record: its entries in the dict's order, keys distinct. */
  type Row = seq<Entry>

  /** One vocabulary entry: `{"encode": code, "freq": count}`. */
  datatype VocabEntry = VocabEntry(encode: int, freq: nat)

  const IdKey: string := "tinyId"

  /** The code after the last is 0: codes run 1, 2, …, 32001, 0, 1, … */
  const CodeCycle: int := 32002

  // ---------------------------------------------------------------------------
  // gen_vocab

  /** Every field but `tinyId` holds a list of tokens. */
  predicate Tokenized(rows: seq<Row>) {
    forall i, j | 0 <= i < |rows| && 0 <= j < |rows[i]| :: rows[i][j].key != IdKey ==> rows[i][j].value.Tokens?
  }

  /** The tokens of a record's content fields, field after field. */
  function RowTokens(row: Row): seq<string>
    decreases |row|
  {
    if row == [] then []
    else
      var prev := RowTokens(row[..|row| - 1]);
      var e := row[|row| - 1];
      if e.key == IdKey || !e.value.Tokens? then prev else prev + e.value.ts
  }

  /** The tokens of all records, record after record. */
  function AllTokens(rows: seq<Row>): seq<string>
    decreases |rows|
  {
    if rows == [] then [] else AllTokens(rows[..|rows| - 1]) + RowTokens(rows[|rows| - 1])
  }

  lemma RowTokensStep(row: Row, j: nat)
    requires j < |row|
    ensures RowTokens(row[..j + 1])
      == RowTokens(row[..j]) + (if row[j].key == IdKey || !row[j].value.Tokens? then [] else row[j].value.ts)
  {
    assert row[..j + 1][..j] == row[..j];
  }

  lemma AllTokensStep(rows: seq<Row>, i: nat)
    requires i < |rows|
    ensures AllTokens(rows[..i + 1]) == AllTokens(rows[..i]) + RowTokens(rows[i])
  {
    assert rows[..i + 1][..i] == rows[..i];
  }

  /** The `Counter` filled by `vocab_list.update(Counter(obj[k]))` over all content fields. */
  method CountTokens(rows: seq<Row>) returns (counts: multiset<string>)
    requires Tokenized(rows)
    ensures counts == multiset(AllTokens(rows))
  {
    counts := multiset{};
    for i := 0 to |rows|
      invariant counts == multiset(AllTokens(rows[..i]))
    {
      AllTokensStep(rows, i);
      var obj := rows[i];
      for j := 0 to |obj|
        invariant counts == multiset(AllTokens(rows[..i])) + multiset(RowTokens(obj[..j]))
      {
        RowTokensStep(obj, j);
        if obj[j].key == IdKey {
          continue;
        }
        counts := counts + multiset(obj[j].value.ts);
      }
      assert obj[..|obj|] == obj;
    }
    assert rows[..|rows|] == rows;
  }

  /** The sort key `(-freq, token)`: more frequent first, ties in code-point order. */
  function RankBefore(counts: multiset<string>): Less {
    (a: string, b: string) => counts[a] > counts[b] || (counts[a] == counts[b] && LexLess(a, b))
  }

  lemma RankOrder(counts: multiset<string>)
    ensures StrictTotalOrder(RankBefore(counts))
  {
    var less := RankBefore(counts);
    forall a: string ensures !less(a, a) {
      LexIrreflexive(a);
    }
    forall a: string, b: string, c: string | less(a, b) && less(b, c) ensures less(a, c) {
      if counts[a] == counts[b] == counts[c] {
        LexTransitive(a, b, c);
      }
    }
    forall a: string, b: string | a != b ensures less(a, b) || less(b, a) {
      LexTotal(a, b);
    }
  }

  /** `sorted(vocab_list.items(), key=lambda item: (-item[1], item[0]))`, keys only. */
  ghost function Ranking(tokens: set<string>, counts: multiset<string>): (r: seq<string>)
    ensures SortedBy(r, RankBefore(counts)) && Elems(r) == tokens && |r| == |tokens|
  {
    RankOrder(counts);
    Sorted(tokens, RankBefore(counts))
  }

  /** The code of the token at 0-based rank `rank`; it always fits in a uint16. */
  function Code(rank: nat): (c: int)
    ensures 0 <= c < 65536
    ensures rank < CodeCycle - 1 ==> c == rank + 1
    ensures c == 0 <==> rank % CodeCycle == CodeCycle - 1
  {
    (rank + 1) % CodeCycle
  }

  /** No token occurs twice. */
  predicate Distinct(s: seq<string>) {
    forall i, j | 0 <= i < j < |s| :: s[i] != s[j]
  }

  lemma SortedDistinct(s: seq<string>, less: Less)
    requires StrictTotalOrder(less) && SortedBy(s, less)
    ensures Distinct(s)
  {
    forall i, j | 0 <= i < j < |s| ensures s[i] != s[j] {
      assert less(s[i], s[j]);
    }
  }

  /**
   * The loop of `gen_vocab` over the ranked tokens: `counter` runs 1, 2, …,
   * 32001, then wraps to 0, and each token is stored with the current
   * counter and its count.
   */
  method AssignCodes(ranked: seq<string>, counts: multiset<string>) returns (vocab: map<string, VocabEntry>)
    requires Distinct(ranked)
    ensures vocab.Keys == Elems(ranked)
    ensures forall i | 0 <= i < |ranked| :: vocab[ranked[i]] == VocabEntry(Code(i), counts[ranked[i]])
  {
    vocab := map[];
    var counter := 0;
    for i := 0 to |ranked|
      invariant counter == i % CodeCycle
      invariant vocab.Keys == Elems(ranked[..i])
      invariant forall k | 0 <= k < i :: vocab[ranked[k]] == VocabEntry(Code(k), counts[ranked[k]])
    {
      if counter > 32000 {
        counter := 0;
      } else {
        counter := counter + 1;
      }
      var key := ranked[i];
      var value := counts[key];
      assert ranked[..i + 1] == ranked[..i] + [key];
      if key !in vocab {
        vocab := vocab[key := VocabEntry(counter, value)];
      } else {
        // the duplicate-entry report: ranked tokens are distinct
        assert false;
      }
    }
    assert ranked[..|ranked|] == ranked;
  }

  /**
   * `gen_vocab(rows)`: the tokens in rank order, and for each its code and
   * frequency. `ranked` is the insertion order of the returned dict.
   */
  method GenVocab(rows: seq<Row>) returns (ranked: seq<string>, vocab: map<string, VocabEntry>)
    requires Tokenized(rows)
    ensures ranked == Ranking(Elems(AllTokens(rows)), multiset(AllTokens(rows)))
    ensures vocab.Keys == Elems(AllTokens(rows))
    ensures forall i | 0 <= i < |ranked| :: vocab[ranked[i]] == VocabEntry(Code(i), multiset(AllTokens(rows))[ranked[i]])
  {
    var counts := CountTokens(rows);
    RankOrder(counts);
    ranked := SortSet(Elems(AllTokens(rows)), RankBefore(counts));
    SortedDistinct(ranked, RankBefore(counts));
    vocab := AssignCodes(ranked, counts);
  }

  /** The vocabulary lists tokens by descending frequency, ties in code-point order. */
  lemma GenVocabOrder(tokens: set<string>, counts: multiset<string>, i: nat, j: nat)
    requires i < j < |Ranking(tokens, counts)|
    ensures var r := Ranking(tokens, counts);
      counts[r[i]] > counts[r[j]] || (counts[r[i]] == counts[r[j]] && LexLess(r[i], r[j]))
  {
    var r := Ranking(tokens, counts);
    assert RankBefore(counts)(r[i], r[j]);
  }

  // ---------------------------------------------------------------------------
  // enc_vocab

  /** `[vocab[token]['encode'] for token in value]`: a missing token raises `KeyError`. */
  function EncodeTokens(ts: seq<string>, vocab: map<string, VocabEntry>): (r: Result<seq<int>>)
    ensures r.Ok? <==> forall k | 0 <= k < |ts| :: ts[k] in vocab
    ensures r.Ok? ==> |r.value| == |ts| && forall k | 0 <= k < |ts| :: r.value[k] == vocab[ts[k]].encode
  {
    if ts == [] then Ok([])
    else if ts[0] !in vocab then Err(KeyError(ts[0]))
    else
      match EncodeTokens(ts[1..], vocab)
      case Err(e) => Err(e)
      case Ok(rest) =>
        assert forall k | 1 <= k < |ts| :: ts[k] == ts[1..][k - 1];
        Ok([vocab[ts[0]].encode] + rest)
  }

  /** `ret_obj` for one record: `tinyId` copied, every other field encoded, in the record's order. */
  function EncRow(row: Row, vocab: map<string, VocabEntry>): Result<Row>
    decreases |row|
  {
    if row == [] then Ok([])
    else
      match EncRow(row[..|row| - 1], vocab)
      case Err(e) => Err(e)
      case Ok(prev) =>
        var e := row[|row| - 1];
        if e.key == IdKey then Ok(prev + [e])
        else if !e.value.Tokens? then Err(TypeError("field is not a token list"))
        else
          match EncodeTokens(e.value.ts, vocab)
          case Err(err) => Err(err)
          case Ok(cs) => Ok(prev + [Entry(e.key, Codes(cs))])
  }

  /** `enc_vocab(rows, vocab)`: every record encoded, or the first `KeyError`. */
  function EncRows(rows: seq<Row>, vocab: map<string, VocabEntry>): Result<seq<Row>>
    decreases |rows|
  {
    if rows == [] then Ok([])
    else
      match EncRows(rows[..|rows| - 1], vocab)
      case Err(e) => Err(e)
      case Ok(prev) =>
        match EncRow(rows[|rows| - 1], vocab)
        case Err(e) => Err(e)
        case Ok(r) => Ok(prev + [r])
  }

  /** A failure in the first `n` fields is the failure of the whole record. */
  lemma {:induction false} EncRowErrStays(row: Row, vocab: map<string, VocabEntry>, n: nat)
    requires n <= |row| && EncRow(row[..n], vocab).Err?
    ensures EncRow(row, vocab) == EncRow(row[..n], vocab)
    decreases |row|
  {
    if n < |row| {
      var init := row[..|row| - 1];
      assert init[..n] == row[..n];
      EncRowErrStays(init, vocab, n);
    } else {
      assert row[..n] == row;
    }
  }

  /** A failure in the first `n` records is the failure of the whole call. */
  lemma {:induction false} EncRowsErrStays(rows: seq<Row>, vocab: map<string, VocabEntry>, n: nat)
    requires n <= |rows| && EncRows(rows[..n], vocab).Err?
    ensures EncRows(rows, vocab) == EncRows(rows[..n], vocab)
    decreases |rows|
  {
    if n < |rows| {
      var init := rows[..|rows| - 1];
      assert init[..n] == rows[..n];
      EncRowsErrStays(init, vocab, n);
    } else {
      assert rows[..n] == rows;
    }
  }

  /** The `tinyId` field is copied as it is. */
  lemma EncRowIdStep(row: Row, vocab: map<string, VocabEntry>, j: nat, prev: Row)
    requires j < |row| && EncRow(row[..j], vocab) == Ok(prev) && row[j].key == IdKey
    ensures EncRow(row[..j + 1], vocab) == Ok(prev + [row[j]])
  {
    Seqs.PrefixStep(row, j);
  }

  /** Any other field is encoded, or its first unknown token is the error. */
  lemma EncRowTokensStep(row: Row, vocab: map<string, VocabEntry>, j: nat, prev: Row)
    requires j < |row| && EncRow(row[..j], vocab) == Ok(prev) && row[j].key != IdKey && row[j].value.Tokens?
    ensures EncodeTokens(row[j].value.ts, vocab).Ok? ==>
      EncRow(row[..j + 1], vocab) == Ok(prev + [Entry(row[j].key, Codes(EncodeTokens(row[j].value.ts, vocab).value))])
    ensures EncodeTokens(row[j].value.ts, vocab).Err? ==>
      EncRow(row[..j + 1], vocab) == Err(EncodeTokens(row[j].value.ts, vocab).error)
  {
    Seqs.PrefixStep(row, j);
  }

  /** One more record: its encoding is appended, or its error is the result. */
  lemma EncRowsStep(rows: seq<Row>, vocab: map<string, VocabEntry>, i: nat, prev: seq<Row>)
    requires i < |rows| && EncRows(rows[..i], vocab) == Ok(prev)
    ensures EncRow(rows[i], vocab).Ok? ==> EncRows(rows[..i + 1], vocab) == Ok(prev + [EncRow(rows[i], vocab).value])
    ensures EncRow(rows[i], vocab).Err? ==> EncRows(rows[..i + 1], vocab) == Err(EncRow(rows[i], vocab).error)
  {
    Seqs.PrefixStep(rows, i);
  }

  /** `enc_vocab`: the records encoded one by one, stopping at the first unknown token. */
  method EncVocab(rows: seq<Row>, vocab: map<string, VocabEntry>) returns (r: Result<seq<Row>>)
    requires Tokenized(rows)
    ensures r == EncRows(rows, vocab)
  {
    var retRows: seq<Row> := [];
    for i := 0 to |rows|
      invariant EncRows(rows[..i], vocab) == Ok(retRows)
    {
      var obj := rows[i];
      EncRowsStep(rows, vocab, i, retRows);
      var retObj: Row := [];
      for j := 0 to |obj|
        invariant EncRow(obj[..j], vocab) == Ok(retObj)
      {
        if obj[j].key == IdKey {
          EncRowIdStep(obj, vocab, j, retObj);
          retObj := retObj + [obj[j]];
          continue;
        }
        var retValue := EncodeTokens(obj[j].value.ts, vocab);
        EncRowTokensStep(obj, vocab, j, retObj);
        if retValue.Err? {
          EncRowErrStays(obj, vocab, j + 1);
          EncRowsErrStays(rows, vocab, i + 1);
          return Err(retValue.error);
        }
        retObj := retObj + [Entry(obj[j].key, Codes(retValue.value))];
      }
      assert obj[..|obj|] == obj;
      retRows := retRows + [retObj];
    }
    assert rows[..|rows|] == rows;
    r := Ok(retRows);
  }

  /**
   * An encoded record has the same keys in the same order, the same
   * `tinyId`, and for every other field one code per token, in order.
   */
  lemma {:induction false} EncRowAt(row: Row, vocab: map<string, VocabEntry>, j: nat)
    requires EncRow(row, vocab).Ok? && j < |row|
    ensures |EncRow(row, vocab).value| == |row|
    ensures EncRow(row, vocab).value[j].key == row[j].key
    ensures row[j].key == IdKey ==> EncRow(row, vocab).value[j] == row[j]
    ensures row[j].key != IdKey ==>
      row[j].value.Tokens? && EncRow(row, vocab).value[j].value.Codes?
      && EncodeTokens(row[j].value.ts, vocab) == Ok(EncRow(row, vocab).value[j].value.cs)
    decreases |row|
  {
    var n := |row| - 1;
    var init := row[..n];
    if j < n {
      EncRowAt(init, vocab, j);
      assert init[j] == row[j];
    } else if n > 0 {
      EncRowAt(init, vocab, 0);
    }
  }

  /** Every token of a record known to the vocabulary: encoding cannot fail. */
  lemma {:induction false} EncRowOk(row: Row, vocab: map<string, VocabEntry>)
    requires Tokenized([row]) && Elems(RowTokens(row)) <= vocab.Keys
    ensures EncRow(row, vocab).Ok?
    decreases |row|
  {
    if row != [] {
      var init := row[..|row| - 1];
      var e := row[|row| - 1];
      assert Tokenized([init]) by {
        assert forall j | 0 <= j < |init| :: init[j] == row[j];
      }
      assert Elems(RowTokens(init)) <= Elems(RowTokens(row));
      EncRowOk(init, vocab);
      if e.key != IdKey {
        assert [row][0][|row| - 1] == e;
        assert forall k | 0 <= k < |e.value.ts| :: e.value.ts[k] in Elems(RowTokens(row));
      }
    }
  }

  /** With the vocabulary `gen_vocab` built from the same records, `enc_vocab` cannot fail. */
  lemma {:induction false} EncRowsOk(rows: seq<Row>, vocab: map<string, VocabEntry>)
    requires Tokenized(rows) && Elems(AllTokens(rows)) <= vocab.Keys
    ensures EncRows(rows, vocab).Ok?
    decreases |rows|
  {
    if rows != [] {
      var n := |rows| - 1;
      var init := rows[..n];
      assert Tokenized(init) by {
        assert forall i | 0 <= i < n :: init[i] == rows[i];
      }
      assert Tokenized([rows[n]]) by {
        assert forall j | 0 <= j < |rows[n]| :: [rows[n]][0][j] == rows[n][j];
      }
      assert Elems(AllTokens(rows)) == Elems(AllTokens(init)) + Elems(RowTokens(rows[n]));
      EncRowsOk(init, vocab);
      EncRowOk(rows[n], vocab);
    }
  }

  // ---------------------------------------------------------------------------
  // append_dict_values

  /** The code lists of a record's fields other than `tinyId`, concatenated in the record's order. */
  function Concat(row: Row): seq<int>
    decreases |row|
  {
    if row == [] then []
    else
      var prev := Concat(row[..|row| - 1]);
      var e := row[|row| - 1];
      if e.key == IdKey || !e.value.Codes? then prev else prev + e.value.cs
  }

  /** The `tinyId` entries of a record (at most one in a dict). */
  function IdEntries(row: Row): (r: Row)
    ensures forall k | 0 <= k < |r| :: r[k].key == IdKey && r[k] in row
    decreases |row|
  {
    if row == [] then []
    else
      var prev := IdEntries(row[..|row| - 1]);
      var e := row[|row| - 1];
      if e.key == IdKey then prev + [e] else prev
  }

  /** `ret_dict` for one record: its `tinyId`, if any, then `fasta_uint16`. */
  function Appended(row: Row): Row {
    IdEntries(row) + [Entry("fasta_uint16", Codes(Concat(row)))]
  }

  /** Every field but `tinyId` holds a list of codes. */
  predicate Encoded(rows: seq<Row>) {
    forall i, j | 0 <= i < |rows| && 0 <= j < |rows[i]| :: rows[i][j].key != IdKey ==> rows[i][j].value.Codes?
  }

  /** `append_dict_values(rows)`: one `ret_dict` per record, in order. */
  method AppendDictValues(rows: seq<Row>) returns (out: seq<Row>)
    requires Encoded(rows)
    ensures |out| == |rows| && forall i | 0 <= i < |rows| :: out[i] == Appended(rows[i])
  {
    out := [];
    for i := 0 to |rows|
      invariant |out| == i && forall k | 0 <= k < i :: out[k] == Appended(rows[k])
    {
      var obj := rows[i];
      var retDict: Row := [];
      var concat: seq<int> := [];
      for j := 0 to |obj|
        invariant retDict == IdEntries(obj[..j]) && concat == Concat(obj[..j])
      {
        assert obj[..j + 1][..j] == obj[..j];
        if obj[j].key == IdKey {
          retDict := retDict + [obj[j]];
          continue;
        }
        concat := concat + obj[j].value.cs;
      }
      assert obj[..|obj|] == obj;
      retDict := retDict + [Entry("fasta_uint16", Codes(concat))];
      out := out + [retDict];
    }
  }

  /** Codes of two token lists, one after the other, are the codes of the joined list. */
  lemma EncodeAppend(a: seq<string>, b: seq<string>, vocab: map<string, VocabEntry>)
    requires EncodeTokens(a, vocab).Ok? && EncodeTokens(b, vocab).Ok?
    ensures EncodeTokens(a + b, vocab) == Ok(EncodeTokens(a, vocab).value + EncodeTokens(b, vocab).value)
  {
    var x := EncodeTokens(a, vocab).value;
    var y := EncodeTokens(b, vocab).value;
    var ab := a + b;
    forall k | 0 <= k < |ab| ensures ab[k] in vocab {
      if k >= |a| {
        assert ab[k] == b[k - |a|];
      }
    }
    var r := EncodeTokens(ab, vocab);
    assert r.Ok?;
    assert |r.value| == |x + y|;
    forall k | 0 <= k < |ab| ensures r.value[k] == (x + y)[k] {
      if k >= |a| {
        assert ab[k] == b[k - |a|];
      }
    }
    assert r.value == x + y;
  }

  /** The `fasta_uint16` payload of an encoded record is the codes of the record's tokens, in order. */
  lemma {:induction false} FastaIsEncodedTokens(row: Row, vocab: map<string, VocabEntry>)
    requires EncRow(row, vocab).Ok?
    ensures EncodeTokens(RowTokens(row), vocab) == Ok(Concat(EncRow(row, vocab).value))
    decreases |row|
  {
    if row != [] {
      var init := row[..|row| - 1];
      var e := row[|row| - 1];
      FastaIsEncodedTokens(init, vocab);
      var prev := EncRow(init, vocab).value;
      var er := EncRow(row, vocab).value;
      if e.key == IdKey {
        assert er == prev + [e];
        assert er[..|er| - 1] == prev;
      } else {
        var cs := EncodeTokens(e.value.ts, vocab).value;
        assert er == prev + [Entry(e.key, Codes(cs))];
        assert er[..|er| - 1] == prev;
        EncodeAppend(RowTokens(init), e.value.ts, vocab);
      }
    }
  }
}
