/** From raw lines to per-source token lists: `get_sents` groups stripped
    lines into sentences, `line_to_toks` parses one line into one token per
    tag column, and `sent_to_toks` / `doc_to_tokses` collect those tokens
    into buckets, one per column (column 0 is gold, column i is sys_i). */
module Sentences {
  import opened Records
  import Text
  import Lists
  import Tags

  /** Every line after `str.strip`. */
  function StripAll(lines: seq<string>): (r: seq<string>)
    ensures |r| == |lines|
    ensures forall i :: 0 <= i < |lines| ==> r[i] == Text.Strip(lines[i])
  {
    seq(|lines|, i requires 0 <= i < |lines| => Text.Strip(lines[i]))
  }

  /** The sentences of stripped lines, one line at a time: an empty line closes
      the sentence in progress and opens a new empty one, any other line joins
      the sentence in progress; the last sentence is always there. */
  function SplitSents(ls: seq<string>): (r: seq<seq<string>>)
    ensures |r| >= 1
  {
    if |ls| == 0 then [[]]
    else
      var prev := SplitSents(ls[..|ls| - 1]);
      var line := ls[|ls| - 1];
      if line == "" then prev + [[]]
      else prev[..|prev| - 1] + [prev[|prev| - 1] + [line]]
  }

  /** `get_sents`. */
  method GetSents(lines: seq<string>) returns (sents: seq<seq<string>>)
    ensures sents == SplitSents(StripAll(lines))
  {
    ghost var stripped := StripAll(lines);
    var sent: seq<string> := [];
    sents := [];
    for i := 0 to |lines|
      invariant sents + [sent] == SplitSents(stripped[..i])
    {
      assert stripped[..i + 1][..i] == stripped[..i];
      var line := Text.Strip(lines[i]);
      if line == "" {
        sents := sents + [sent];
        sent := [];
      } else {
        sent := sent + [line];
      }
    }
    assert stripped[..|lines|] == stripped;
    sents := sents + [sent];
  }

  /** The number of empty lines. */
  function CountBlank(ls: seq<string>): nat
  {
    if |ls| == 0 then 0 else CountBlank(ls[..|ls| - 1]) + if ls[|ls| - 1] == "" then 1 else 0
  }

  /** The non-empty lines, in order. */
  function NonBlank(ls: seq<string>): seq<string>
  {
    if |ls| == 0 then [] else NonBlank(ls[..|ls| - 1]) + if ls[|ls| - 1] == "" then [] else [ls[|ls| - 1]]
  }

  /** There is one sentence more than there are empty lines. */
  lemma {:induction false} SentCount(ls: seq<string>)
    ensures |SplitSents(ls)| == CountBlank(ls) + 1
  {
    if |ls| > 0 { SentCount(ls[..|ls| - 1]); }
  }

  /** No sentence holds an empty line. */
  lemma {:induction false} SentsHaveNoBlank(ls: seq<string>)
    ensures forall j :: 0 <= j < |SplitSents(ls)| ==> "" !in SplitSents(ls)[j]
  {
    if |ls| > 0 {
      SentsHaveNoBlank(ls[..|ls| - 1]);
      var prev := SplitSents(ls[..|ls| - 1]);
      assert forall j :: 0 <= j < |prev| ==> "" !in prev[j];
    }
  }

  /** The sentences, one after another, are exactly the non-empty lines. */
  lemma {:induction false} SentsConcat(ls: seq<string>)
    ensures Lists.Flatten(SplitSents(ls)) == NonBlank(ls)
  {
    if |ls| > 0 {
      var init := ls[..|ls| - 1];
      var prev := SplitSents(init);
      SentsConcat(init);
      var line := ls[|ls| - 1];
      if line == "" {
        Lists.FlattenAppend(prev, [[]]);
        var closing: seq<seq<string>> := [[]];
        assert Lists.Flatten(closing) == [];
      } else {
        var front := prev[..|prev| - 1];
        var last := prev[|prev| - 1];
        assert prev == front + [last];
        Lists.FlattenAppend(front, [last]);
        Lists.FlattenAppend(front, [last + [line]]);
        assert Lists.Flatten([last]) == last;
        assert Lists.Flatten([last + [line]]) == last + [line];
      }
    }
  }

  /** The tab-separated fields of a line: the word, then one tag field per source. */
  function Fields(line: string): seq<string>
  {
    Text.Split(line, '\t')
  }

  /** The fields of a line are tab-free, there is at least one, and joined
      with tabs they give the line back. */
  lemma {:induction false} FieldsSplit(line: string)
    ensures |Fields(line)| >= 1 && Text.Join(Fields(line), '\t') == line
    ensures forall i :: 0 <= i < |Fields(line)| ==> '\t' !in Fields(line)[i]
  {
  }

  /** `line_to_toks`: split the line on tabs; the first field is the word and
      every further field is parsed by `make_tok` into the token of its column.
      Any bad field makes the whole line invalid; by `FieldsParse`, a field
      `make_tok` rejects is exactly one that is not `ValidBioTag`. */
  function LineToToks(line: string, sentId: int, wordId: int): Result<seq<Token>, Error>
  {
    var fields := Fields(line);
    var word := fields[0];
    FieldsParse(word, fields, sentId, wordId);
    if forall i :: 1 <= i < |fields| ==> Tags.ValidBioTag(fields[i]) then
      Ok(seq(|fields| - 1, c requires 0 <= c < |fields| - 1 => Tags.MakeTok(word, fields[c + 1], sentId, wordId).value))
    else
      Err(InvalidLine(line, sentId, wordId))
  }

  /** A line parses exactly when every tag field is accepted, and fails
      with "Invalid line" and its ids otherwise; it gives one token per tag
      field, each carrying the line's word and ids, well formed and
      printing back to its field. */
  lemma {:induction false} LineToToksSpec(line: string, sentId: int, wordId: int)
    ensures var r := LineToToks(line, sentId, wordId);
      && (r.Ok? <==> forall i :: 1 <= i < |Fields(line)| ==> Tags.ValidBioTag(Fields(line)[i]))
      && (r.Err? ==> r.error == InvalidLine(line, sentId, wordId))
      && (r.Ok? ==> |r.value| == |Fields(line)| - 1)
      && (r.Ok? ==> forall c :: 0 <= c < |r.value| ==>
            r.value[c].word == Fields(line)[0] && r.value[c].sentId == sentId && r.value[c].wordId == wordId
            && Tags.Valid(r.value[c]) && Tags.TagField(r.value[c]) == Fields(line)[c + 1])
  {
    var fields := Fields(line);
    FieldsParse(fields[0], fields, sentId, wordId);
  }

  lemma {:induction false} FieldsParse(word: string, fields: seq<string>, sentId: int, wordId: int)
    ensures (forall i :: 1 <= i < |fields| ==> Tags.MakeTok(word, fields[i], sentId, wordId).Ok?)
            <==> (forall i :: 1 <= i < |fields| ==> Tags.ValidBioTag(fields[i]))
  {
    forall i | 1 <= i < |fields|
      ensures Tags.MakeTok(word, fields[i], sentId, wordId).Ok? <==> Tags.ValidBioTag(fields[i])
    {
      Tags.MakeTokAccepts(word, fields[i], sentId, wordId);
    }
  }

  /** The tag fields of a line's tokens, in column order. */
  function TagFields(toks: seq<Token>): (r: seq<string>)
    ensures |r| == |toks|
  {
    seq(|toks|, c requires 0 <= c < |toks| => Tags.TagField(toks[c]))
  }

  /** A parsed line is recovered by writing its word and its tokens' tag fields
      back, tab-separated. */
  lemma {:induction false} LineRoundTrip(line: string, sentId: int, wordId: int)
    requires LineToToks(line, sentId, wordId).Ok?
    ensures Text.Join([Fields(line)[0]] + TagFields(LineToToks(line, sentId, wordId).value), '\t') == line
  {
    var fields := Fields(line);
    LineToToksSpec(line, sentId, wordId);
    assert [fields[0]] + TagFields(LineToToks(line, sentId, wordId).value) == fields;
  }

  /** The buckets after appending item c to bucket c for every column c of
      one line, creating the buckets that do not exist yet. */
  function AddToBuckets<T>(buckets: seq<seq<T>>, items: seq<T>): seq<seq<T>>
  {
    var n := if |buckets| < |items| then |items| else |buckets|;
    seq(n, c requires 0 <= c < n =>
      (if c < |buckets| then buckets[c] else []) + (if c < |items| then [items[c]] else []))
  }

  /** Item c lands at the end of bucket c, a bucket is created for an item
      that has none, and buckets beyond the items are left alone. */
  lemma {:induction false} AddToBucketsSpec<T>(buckets: seq<seq<T>>, items: seq<T>)
    ensures |AddToBuckets(buckets, items)| == if |buckets| < |items| then |items| else |buckets|
    ensures forall c :: 0 <= c < |items| ==>
      AddToBuckets(buckets, items)[c] == (if c < |buckets| then buckets[c] else []) + [items[c]]
    ensures forall c :: |items| <= c < |buckets| ==> AddToBuckets(buckets, items)[c] == buckets[c]
  {
  }

  lemma {:induction false} AddToBucketsStep<T>(buckets: seq<seq<T>>, items: seq<T>, src: nat)
    requires src < |items|
    ensures var r := AddToBuckets(buckets, items[..src]);
            |r| >= src
            && AddToBuckets(buckets, items[..src + 1])
               == if src < |r| then r[src := r[src] + [items[src]]] else r + [[items[src]]]
  {
    var r := AddToBuckets(buckets, items[..src]);
    var r' := AddToBuckets(buckets, items[..src + 1]);
    var expected := if src < |r| then r[src := r[src] + [items[src]]] else r + [[items[src]]];
    assert |r'| == |expected|;
    forall c | 0 <= c < |r'| ensures r'[c] == expected[c] {
      if c < src {
        assert items[..src + 1][c] == items[..src][c];
      }
    }
  }

  lemma {:induction false} AddNothing<T>(buckets: seq<seq<T>>)
    ensures AddToBuckets(buckets, []) == buckets
  {
    var none: seq<T> := [];
    var r := AddToBuckets(buckets, none);
    assert |r| == |buckets|;
    forall c | 0 <= c < |r| ensures r[c] == buckets[c] {
      assert r[c] == buckets[c] + [];
    }
  }

  /** The loop `for src, tok in items: buckets[src].append(tok)` over a
      `defaultdict(list)` whose keys are column numbers. */
  method AppendColumns<T>(buckets: seq<seq<T>>, items: seq<T>) returns (r: seq<seq<T>>)
    ensures r == AddToBuckets(buckets, items)
  {
    r := buckets;
    AddNothing(buckets);
    assert items[..0] == [];
    for src := 0 to |items|
      invariant r == AddToBuckets(buckets, items[..src])
    {
      AddToBucketsStep(buckets, items, src);
      if src < |r| {
        r := r[src := r[src] + [items[src]]];
      } else {
        r := r + [[items[src]]];
      }
    }
    assert items[..|items|] == items;
  }

  /** The column buckets of one sentence: the tokens of each line, appended
      line by line; the first bad line is the error. */
  function SentColumns(sent: seq<string>, sentId: int): (r: Result<seq<seq<Token>>, Error>)
    ensures r.Ok? ==> forall c :: 0 <= c < |r.value| ==> |r.value[c]| > 0
    ensures r.Ok? ==> forall c, w :: 0 <= c < |r.value| && 0 <= w < |r.value[c]| ==>
                        r.value[c][w].sentId == sentId && Tags.Valid(r.value[c][w])
  {
    if |sent| == 0 then Ok([])
    else
      match SentColumns(sent[..|sent| - 1], sentId)
      case Err(e) => Err(e)
      case Ok(cols) =>
        match LineToToks(sent[|sent| - 1], sentId, |sent| - 1)
        case Err(e) => Err(e)
        case Ok(toks) =>
          LineToToksSpec(sent[|sent| - 1], sentId, |sent| - 1);
          Ok(AddToBuckets(cols, toks))
  }

  lemma {:induction false} SentColumnsErrSticks(sent: seq<string>, sentId: int, i: nat)
    requires i <= |sent| && SentColumns(sent[..i], sentId).Err?
    ensures SentColumns(sent, sentId) == SentColumns(sent[..i], sentId)
    decreases |sent|
  {
    if i < |sent| {
      var init := sent[..|sent| - 1];
      assert init[..i] == sent[..i];
      SentColumnsErrSticks(init, sentId, i);
    } else {
      assert sent[..i] == sent;
    }
  }

  /** Line w is the first line of the sentence with a rejected tag field. */
  predicate FirstBadLine(sent: seq<string>, sentId: int, w: int)
  {
    0 <= w < |sent| && LineToToks(sent[w], sentId, w).Err?
    && forall v :: 0 <= v < w ==> LineToToks(sent[v], sentId, v).Ok?
  }

  /** A sentence fails to group exactly when one of its lines has a rejected
      tag field, and then with "Invalid line" for the first such line. */
  lemma {:induction false} SentColumnsFails(sent: seq<string>, sentId: int)
    ensures SentColumns(sent, sentId).Err? <==> exists w :: 0 <= w < |sent| && LineToToks(sent[w], sentId, w).Err?
    ensures SentColumns(sent, sentId).Err? ==>
      exists w :: FirstBadLine(sent, sentId, w) && SentColumns(sent, sentId).error == InvalidLine(sent[w], sentId, w)
  {
    if SentColumns(sent, sentId).Err? {
      var w := SentColumnsFirstBad(sent, sentId);
    } else {
      SentColumnsAllParse(sent, sentId);
    }
  }

  /** A failing sentence fails at its first bad line. */
  lemma {:induction false} SentColumnsFirstBad(sent: seq<string>, sentId: int) returns (w: nat)
    requires SentColumns(sent, sentId).Err?
    ensures FirstBadLine(sent, sentId, w) && SentColumns(sent, sentId).error == InvalidLine(sent[w], sentId, w)
  {
    var n := |sent| - 1;
    var init := sent[..n];
    if SentColumns(init, sentId).Err? {
      w := SentColumnsFirstBad(init, sentId);
      assert init[w] == sent[w];
      forall v | 0 <= v < w ensures LineToToks(sent[v], sentId, v).Ok? {
        assert init[v] == sent[v];
      }
    } else {
      SentColumnsAllParse(init, sentId);
      w := n;
      forall v | 0 <= v < n ensures LineToToks(sent[v], sentId, v).Ok? {
        assert init[v] == sent[v];
      }
    }
  }

  /** In a sentence that groups, every line parses. */
  lemma {:induction false} SentColumnsAllParse(sent: seq<string>, sentId: int)
    requires SentColumns(sent, sentId).Ok?
    ensures forall w :: 0 <= w < |sent| ==> LineToToks(sent[w], sentId, w).Ok?
  {
    if |sent| > 0 {
      var n := |sent| - 1;
      var init := sent[..n];
      SentColumnsOkInit(sent, sentId);
      SentColumnsAllParse(init, sentId);
      forall w | 0 <= w < n ensures LineToToks(sent[w], sentId, w).Ok? {
        assert init[w] == sent[w];
      }
    }
  }

  lemma {:induction false} SentColumnsOkInit(sent: seq<string>, sentId: int)
    requires |sent| > 0 && SentColumns(sent, sentId).Ok?
    ensures SentColumns(sent[..|sent| - 1], sentId).Ok? && LineToToks(sent[|sent| - 1], sentId, |sent| - 1).Ok?
  {
  }

  lemma {:induction false} SentColumnsStep(sent: seq<string>, sentId: int, i: nat)
    requires i < |sent| && SentColumns(sent[..i], sentId).Ok?
    ensures SentColumns(sent[..i + 1], sentId) ==
      match LineToToks(sent[i], sentId, i)
      case Err(e) => Err(e)
      case Ok(toks) => Ok(AddToBuckets(SentColumns(sent[..i], sentId).value, toks))
  {
    assert sent[..i + 1][..i] == sent[..i];
  }

  /** `sent_to_toks`. */
  method SentToToks(sent: seq<string>, sentId: int) returns (r: Result<seq<seq<Token>>, Error>)
    ensures r == SentColumns(sent, sentId)
  {
    var toks: seq<seq<Token>> := [];
    for wordId := 0 to |sent|
      invariant SentColumns(sent[..wordId], sentId) == Ok(toks)
    {
      var line := LineToToks(sent[wordId], sentId, wordId);
      SentColumnsStep(sent, sentId, wordId);
      if line.Err? {
        SentColumnsErrSticks(sent, sentId, wordId + 1);
        return Err(line.error);
      }
      toks := AppendColumns(toks, line.value);
    }
    assert sent[..|sent|] == sent;
    return Ok(toks);
  }

  /** Tokens whose word ids count 0, 1, 2, ... */
  predicate Consecutive(toks: seq<Token>)
  {
    forall i :: 0 <= i < |toks| ==> toks[i].wordId == i
  }

  /** Every line of the sentence has the word and `n` tag fields. */
  predicate Uniform(sent: seq<string>, n: nat)
  {
    forall w :: 0 <= w < |sent| ==> |Fields(sent[w])| == n + 1
  }

  /** Every line parses into `n` tokens. */
  predicate LinesParse(sent: seq<string>, sentId: int, n: nat)
  {
    forall w :: 0 <= w < |sent| ==> LineToToks(sent[w], sentId, w).Ok? && |LineToToks(sent[w], sentId, w).value| == n
  }

  /** `cols` is the transpose of `rows`: every row has `n` items and bucket c
      holds the c-th item of every row, in row order. */
  predicate Transposed<T(==)>(rows: seq<seq<T>>, n: nat, cols: seq<seq<T>>)
  {
    && |cols| == n
    && (forall w :: 0 <= w < |rows| ==> |rows[w]| == n)
    && (forall c :: 0 <= c < n ==> |cols[c]| == |rows|)
    && (forall c, w :: 0 <= c < n && 0 <= w < |rows| ==> cols[c][w] == rows[w][c])
  }

  /** Appending a row of `n` items to the buckets of the rows before it keeps
      them the transpose; the first row creates the buckets. */
  lemma {:induction false} TransposedStep<T>(rows: seq<seq<T>>, n: nat, prev: seq<seq<T>>)
    requires |rows| > 0 && |rows[|rows| - 1]| == n
    requires if |rows| == 1 then prev == [] else Transposed(rows[..|rows| - 1], n, prev)
    ensures Transposed(rows, n, AddToBuckets(prev, rows[|rows| - 1]))
  {
    var last := |rows| - 1;
    var row := rows[last];
    var init := rows[..last];
    var cols := AddToBuckets(prev, row);
    assert |prev| <= n && |cols| == n;
    forall w | 0 <= w < |rows|
      ensures |rows[w]| == n
    {
      if w < last { assert init[w] == rows[w]; }
    }
    forall c | 0 <= c < n
      ensures |cols[c]| == |rows|
    {
      assert cols[c] == (if c < |prev| then prev[c] else []) + [row[c]];
    }
    forall c, w | 0 <= c < n && 0 <= w < |rows|
      ensures cols[c][w] == rows[w][c]
    {
      var before := if c < |prev| then prev[c] else [];
      assert cols[c] == before + [row[c]];
      if w < last {
        assert init[w] == rows[w];
        assert cols[c][w] == before[w];
      }
    }
  }

  /** What each line of the sentence parses into (nothing for a bad line). */
  function ParsedLines(sent: seq<string>, sentId: int): (rows: seq<seq<Token>>)
    ensures |rows| == |sent|
  {
    seq(|sent|, w requires 0 <= w < |sent| =>
      var r := LineToToks(sent[w], sentId, w); if r.Ok? then r.value else [])
  }

  /** `cols` holds `n` buckets, one token per line each: the token of line w
      in bucket c is the c-th token that line parses into. */
  predicate LineByLine(sent: seq<string>, sentId: int, n: nat, cols: seq<seq<Token>>)
  {
    LinesParse(sent, sentId, n) && Transposed(ParsedLines(sent, sentId), n, cols)
  }

  lemma {:induction false} LinesParseStep(sent: seq<string>, sentId: int, n: nat)
    requires |sent| > 0 && LinesParse(sent[..|sent| - 1], sentId, n)
    requires LineToToks(sent[|sent| - 1], sentId, |sent| - 1).Ok?
    requires |LineToToks(sent[|sent| - 1], sentId, |sent| - 1).value| == n
    ensures LinesParse(sent, sentId, n)
  {
    var init := sent[..|sent| - 1];
    forall w | 0 <= w < |sent|
      ensures LineToToks(sent[w], sentId, w).Ok? && |LineToToks(sent[w], sentId, w).value| == n
    {
      if w < |init| { assert init[w] == sent[w]; }
    }
  }

  /** Appending one more line of `n` tokens keeps the buckets line by line. */
  lemma {:induction false} LineByLineStep(sent: seq<string>, sentId: int, n: nat, prev: seq<seq<Token>>, toks: seq<Token>)
    requires |sent| > 0
    requires LineToToks(sent[|sent| - 1], sentId, |sent| - 1) == Ok(toks) && |toks| == n
    requires if |sent| == 1 then prev == [] else LineByLine(sent[..|sent| - 1], sentId, n, prev)
    ensures LineByLine(sent, sentId, n, AddToBuckets(prev, toks))
  {
    var rows := ParsedLines(sent, sentId);
    var init := sent[..|sent| - 1];
    LinesParseStep(sent, sentId, n);
    assert rows[..|sent| - 1] == ParsedLines(init, sentId) by {
      forall w | 0 <= w < |init| ensures init[w] == sent[w] { }
    }
    assert rows[|sent| - 1] == toks;
    TransposedStep(rows, n, prev);
  }

  /** With `n` tag fields on every line, bucket c lists the c-th token of
      each line, line by line. */
  lemma {:induction false} UniformLineByLine(sent: seq<string>, sentId: int, n: nat)
    requires |sent| > 0 && Uniform(sent, n)
    requires SentColumns(sent, sentId).Ok?
    ensures LineByLine(sent, sentId, n, SentColumns(sent, sentId).value)
  {
    var init := sent[..|sent| - 1];
    var last := |sent| - 1;
    var toks := LineToToks(sent[last], sentId, last).value;
    var prev := SentColumns(init, sentId).value;
    assert SentColumns(sent, sentId).value == AddToBuckets(prev, toks);
    if |init| > 0 {
      assert Uniform(init, n);
      UniformLineByLine(init, sentId, n);
    }
    LineByLineStep(sent, sentId, n, prev, toks);
  }

  /** When every line has the same number `n` of tag fields, there are `n`
      buckets and bucket c numbers its words 0, 1, 2, ..., holding for line w
      the line's word and its c-th tag field. */
  lemma {:induction false} UniformColumns(sent: seq<string>, sentId: int, n: nat)
    requires |sent| > 0 && Uniform(sent, n)
    requires SentColumns(sent, sentId).Ok?
    ensures |SentColumns(sent, sentId).value| == n
    ensures forall c :: 0 <= c < n ==> |SentColumns(sent, sentId).value[c]| == |sent|
    ensures forall c :: 0 <= c < n ==> Consecutive(SentColumns(sent, sentId).value[c])
    ensures forall c, w :: 0 <= c < n && 0 <= w < |sent| ==>
              SentColumns(sent, sentId).value[c][w].word == Fields(sent[w])[0]
              && Tags.TagField(SentColumns(sent, sentId).value[c][w]) == Fields(sent[w])[c + 1]
  {
    UniformLineByLine(sent, sentId, n);
    var cols: seq<seq<Token>> := SentColumns(sent, sentId).value;
    forall c | 0 <= c < n
      ensures Consecutive(cols[c])
      ensures forall w :: 0 <= w < |sent| ==>
                cols[c][w].word == Fields(sent[w])[0] && Tags.TagField(cols[c][w]) == Fields(sent[w])[c + 1]
    {
      forall w | 0 <= w < |sent|
        ensures cols[c][w].wordId == w && cols[c][w].word == Fields(sent[w])[0]
        ensures Tags.TagField(cols[c][w]) == Fields(sent[w])[c + 1]
      {
        assert cols[c][w] == ParsedLines(sent, sentId)[w][c] == LineToToks(sent[w], sentId, w).value[c];
        TokenOfLine(sent[w], sentId, w, c);
      }
    }
  }

  /** The token of column c of a parsed line. */
  lemma {:induction false} TokenOfLine(line: string, sentId: int, wordId: int, c: nat)
    requires LineToToks(line, sentId, wordId).Ok? && c < |LineToToks(line, sentId, wordId).value|
    ensures var tok := LineToToks(line, sentId, wordId).value[c];
      tok.wordId == wordId && tok.word == Fields(line)[0] && Tags.TagField(tok) == Fields(line)[c + 1]
  {
    LineToToksSpec(line, sentId, wordId);
  }

  /** A non-empty token list of well-formed tokens of one sentence. */
  predicate OneSentence(toks: seq<Token>)
  {
    |toks| > 0 && forall w :: 0 <= w < |toks| ==> toks[w].sentId == toks[0].sentId && Tags.Valid(toks[w])
  }

  /** The buckets of a whole document: for each source column, the token
      list of every sentence that has that column, sentence ids counting
      the sentences (empty ones included). */
  function DocColumns(sents: seq<seq<string>>): (r: Result<seq<seq<seq<Token>>>, Error>)
    ensures r.Ok? ==> forall c, j :: 0 <= c < |r.value| && 0 <= j < |r.value[c]| ==> OneSentence(r.value[c][j])
  {
    if |sents| == 0 then Ok([])
    else
      match DocColumns(sents[..|sents| - 1])
      case Err(e) => Err(e)
      case Ok(tokses) =>
        match SentColumns(sents[|sents| - 1], |sents| - 1)
        case Err(e) => Err(e)
        case Ok(cols) => Ok(AddToBuckets(tokses, cols))
  }

  lemma {:induction false} DocColumnsErrSticks(sents: seq<seq<string>>, i: nat)
    requires i <= |sents| && DocColumns(sents[..i]).Err?
    ensures DocColumns(sents) == DocColumns(sents[..i])
    decreases |sents|
  {
    if i < |sents| {
      var init := sents[..|sents| - 1];
      assert init[..i] == sents[..i];
      DocColumnsErrSticks(init, i);
    } else {
      assert sents[..i] == sents;
    }
  }

  /** Sentence j is the first sentence of the document that fails to group. */
  predicate FirstBadSent(sents: seq<seq<string>>, j: int)
  {
    0 <= j < |sents| && SentColumns(sents[j], j).Err?
    && forall i :: 0 <= i < j ==> SentColumns(sents[i], i).Ok?
  }

  /** A document fails to group exactly when one of its sentences does, and
      then with the error of the first such sentence. */
  lemma {:induction false} DocColumnsFails(sents: seq<seq<string>>)
    ensures DocColumns(sents).Err? <==> exists j :: 0 <= j < |sents| && SentColumns(sents[j], j).Err?
    ensures DocColumns(sents).Err? ==>
      exists j :: FirstBadSent(sents, j) && DocColumns(sents).error == SentColumns(sents[j], j).error
  {
    if DocColumns(sents).Err? {
      var j := DocColumnsFirstBad(sents);
    } else {
      DocColumnsAllGroup(sents);
    }
  }

  /** A failing document fails at its first bad sentence. */
  lemma {:induction false} DocColumnsFirstBad(sents: seq<seq<string>>) returns (j: nat)
    requires DocColumns(sents).Err?
    ensures FirstBadSent(sents, j) && DocColumns(sents).error == SentColumns(sents[j], j).error
  {
    var n := |sents| - 1;
    var init := sents[..n];
    if DocColumns(init).Err? {
      j := DocColumnsFirstBad(init);
      assert init[j] == sents[j];
      forall i | 0 <= i < j ensures SentColumns(sents[i], i).Ok? {
        assert init[i] == sents[i];
      }
    } else {
      DocColumnsAllGroup(init);
      j := n;
      forall i | 0 <= i < n ensures SentColumns(sents[i], i).Ok? {
        assert init[i] == sents[i];
      }
    }
  }

  /** In a document that groups, every sentence groups. */
  lemma {:induction false} DocColumnsAllGroup(sents: seq<seq<string>>)
    requires DocColumns(sents).Ok?
    ensures forall j :: 0 <= j < |sents| ==> SentColumns(sents[j], j).Ok?
  {
    if |sents| > 0 {
      var n := |sents| - 1;
      var init := sents[..n];
      DocColumnsAllGroup(init);
      forall j | 0 <= j < n ensures SentColumns(sents[j], j).Ok? {
        assert init[j] == sents[j];
      }
    }
  }

  lemma {:induction false} DocColumnsStep(sents: seq<seq<string>>, i: nat)
    requires i < |sents| && DocColumns(sents[..i]).Ok?
    ensures DocColumns(sents[..i + 1]) ==
      match SentColumns(sents[i], i)
      case Err(e) => Err(e)
      case Ok(cols) => Ok(AddToBuckets(DocColumns(sents[..i]).value, cols))
  {
    assert sents[..i + 1][..i] == sents[..i];
  }

  /** One more sentence: its error is the document's, or its buckets join the rest. */
  lemma {:induction false} DocColumnsNext(sents: seq<seq<string>>, i: nat, tokses: seq<seq<seq<Token>>>)
    requires i < |sents| && DocColumns(sents[..i]) == Ok(tokses)
    ensures SentColumns(sents[i], i).Err? ==> DocColumns(sents) == Err(SentColumns(sents[i], i).error)
    ensures SentColumns(sents[i], i).Ok? ==>
      DocColumns(sents[..i + 1]) == Ok(AddToBuckets(tokses, SentColumns(sents[i], i).value))
  {
    DocColumnsStep(sents, i);
    if SentColumns(sents[i], i).Err? {
      DocColumnsErrSticks(sents, i + 1);
    }
  }

  /** `doc_to_tokses`. */
  method DocToTokses(lines: seq<string>) returns (r: Result<seq<seq<seq<Token>>>, Error>)
    ensures r == DocColumns(SplitSents(StripAll(lines)))
  {
    var sents := GetSents(lines);
    var tokses: seq<seq<seq<Token>>> := [];
    for sentId := 0 to |sents|
      invariant DocColumns(sents[..sentId]) == Ok(tokses)
    {
      var cols := SentToToks(sents[sentId], sentId);
      DocColumnsNext(sents, sentId, tokses);
      if cols.Err? {
        return Err(cols.error);
      }
      tokses := AppendColumns(tokses, cols.value);
    }
    assert sents[..|sents|] == sents;
    return Ok(tokses);
  }

  /** Every non-blank line of the document has the word and `n` tag fields. */
  predicate UniformDoc(sents: seq<seq<string>>, n: nat)
  {
    forall j :: 0 <= j < |sents| ==> Uniform(sents[j], n)
  }

  /** Every sentence's token list, in every column, numbers its words 0, 1, 2, ... */
  predicate AllConsecutive(tokses: seq<seq<seq<Token>>>)
  {
    forall c, j :: 0 <= c < |tokses| && 0 <= j < |tokses[c]| ==> Consecutive(tokses[c][j])
  }

  lemma {:induction false} AllConsecutiveStep(prev: seq<seq<seq<Token>>>, cols: seq<seq<Token>>)
    requires AllConsecutive(prev)
    requires forall c :: 0 <= c < |cols| ==> Consecutive(cols[c])
    ensures AllConsecutive(AddToBuckets(prev, cols))
  {
    var next := AddToBuckets(prev, cols);
    forall c, j | 0 <= c < |next| && 0 <= j < |next[c]| ensures Consecutive(next[c][j]) {
      var old_ := if c < |prev| then prev[c] else [];
      assert next[c] == old_ + (if c < |cols| then [cols[c]] else []);
      if j >= |old_| {
        assert next[c][j] == cols[c];
      } else {
        assert next[c][j] == old_[j];
      }
    }
  }

  /** In a document whose lines all carry the same number of tag fields, every
      sentence's token list, in every column, numbers its words 0, 1, 2, ... */
  lemma {:induction false} UniformDocConsecutive(sents: seq<seq<string>>, n: nat)
    requires UniformDoc(sents, n)
    requires DocColumns(sents).Ok?
    ensures AllConsecutive(DocColumns(sents).value)
  {
    if |sents| > 0 {
      var init := sents[..|sents| - 1];
      var sent := sents[|sents| - 1];
      assert UniformDoc(init, n);
      UniformDocConsecutive(init, n);
      var prev := DocColumns(init).value;
      var cols := SentColumns(sent, |sents| - 1).value;
      if |sent| > 0 {
        UniformColumns(sent, |sents| - 1, n);
      }
      assert DocColumns(sents).value == AddToBuckets(prev, cols);
      AllConsecutiveStep(prev, cols);
    }
  }

  /** Word ids that strictly increase along the list. */
  predicate WordsIncrease(toks: seq<Token>)
  {
    forall v, w :: 0 <= v < w < |toks| ==> toks[v].wordId < toks[w].wordId
  }

  /** Strictly increasing word ids, all below `n`. */
  predicate WordsBelow(toks: seq<Token>, n: int)
  {
    WordsIncrease(toks) && forall w :: 0 <= w < |toks| ==> toks[w].wordId < n
  }

  lemma {:induction false} WordsBelowSnoc(toks: seq<Token>, tok: Token, n: int)
    requires WordsBelow(toks, n) && tok.wordId == n
    ensures WordsBelow(toks + [tok], n + 1)
  {
    var next := toks + [tok];
    forall v, w | 0 <= v < w < |next| ensures next[v].wordId < next[w].wordId {
      assert next[v] == toks[v];
    }
  }

  /** In every bucket of a grouped sentence the word ids strictly increase
      and stay below the number of lines: line w contributes word id w. */
  lemma {:induction false} SentColumnsOrdered(sent: seq<string>, sentId: int)
    requires SentColumns(sent, sentId).Ok?
    ensures forall c :: 0 <= c < |SentColumns(sent, sentId).value| ==>
      WordsBelow(SentColumns(sent, sentId).value[c], |sent|)
  {
    if |sent| > 0 {
      var n := |sent| - 1;
      var init := sent[..n];
      SentColumnsOrdered(init, sentId);
      var prev := SentColumns(init, sentId).value;
      var toks := LineToToks(sent[n], sentId, n).value;
      LineToToksSpec(sent[n], sentId, n);
      var cols := AddToBuckets(prev, toks);
      assert SentColumns(sent, sentId).value == cols;
      AddToBucketsSpec(prev, toks);
      forall c | 0 <= c < |cols| ensures WordsBelow(cols[c], n + 1) {
        if c < |toks| {
          var before: seq<Token> := if c < |prev| then prev[c] else [];
          assert WordsBelow(before, n);
          WordsBelowSnoc(before, toks[c], n);
        } else {
          assert cols[c] == prev[c] && WordsBelow(prev[c], n);
        }
      }
    }
  }

  /** A column's sentence lists: each a sentence with strictly increasing
      word ids, sentence ids strictly increasing from list to list, all
      below `n`. */
  predicate SentsBelow(ls: seq<seq<Token>>, n: int)
  {
    && (forall j :: 0 <= j < |ls| ==> OneSentence(ls[j]) && WordsIncrease(ls[j]) && ls[j][0].sentId < n)
    && (forall i, j :: 0 <= i < j < |ls| && |ls[i]| > 0 && |ls[j]| > 0 ==> ls[i][0].sentId < ls[j][0].sentId)
  }

  /** Dropping the last sentence list leaves lists below its sentence id. */
  lemma {:induction false} SentsBelowInit(ls: seq<seq<Token>>, n: int)
    requires SentsBelow(ls, n) && |ls| > 0
    ensures SentsBelow(ls[..|ls| - 1], ls[|ls| - 1][0].sentId)
  {
    var init := ls[..|ls| - 1];
    forall j | 0 <= j < |init| ensures init[j] == ls[j] && init[j][0].sentId < ls[|ls| - 1][0].sentId { }
  }

  lemma {:induction false} SentsBelowSnoc(ls: seq<seq<Token>>, toks: seq<Token>, n: int)
    requires SentsBelow(ls, n) && OneSentence(toks) && WordsIncrease(toks) && toks[0].sentId == n
    ensures SentsBelow(ls + [toks], n + 1)
  {
    var next := ls + [toks];
    forall j | 0 <= j < |next| ensures OneSentence(next[j]) && WordsIncrease(next[j]) && next[j][0].sentId < n + 1 {
      if j < |ls| { assert next[j] == ls[j]; }
    }
    forall i, j | 0 <= i < j < |next| && |next[i]| > 0 && |next[j]| > 0
      ensures next[i][0].sentId < next[j][0].sentId
    {
      assert next[i] == ls[i];
      if j < |ls| { assert next[j] == ls[j]; }
    }
  }

  /** In every column of a grouped document, the sentence lists carry
      strictly increasing sentence ids below the number of sentences, and
      each one strictly increasing word ids: no two tokens of a column share
      both ids. */
  lemma {:induction false} DocColumnsOrdered(sents: seq<seq<string>>)
    requires DocColumns(sents).Ok?
    ensures forall c :: 0 <= c < |DocColumns(sents).value| ==> SentsBelow(DocColumns(sents).value[c], |sents|)
  {
    if |sents| > 0 {
      var n := |sents| - 1;
      var init := sents[..n];
      DocColumnsOrdered(init);
      var prev := DocColumns(init).value;
      var cols := SentColumns(sents[n], n).value;
      var next := AddToBuckets(prev, cols);
      assert DocColumns(sents).value == next;
      AddToBucketsSpec(prev, cols);
      SentColumnsOrdered(sents[n], n);
      forall c | 0 <= c < |next| ensures SentsBelow(next[c], n + 1) {
        if c < |cols| {
          var before: seq<seq<Token>> := if c < |prev| then prev[c] else [];
          assert SentsBelow(before, n);
          assert WordsBelow(cols[c], |sents[n]|);
          SentsBelowSnoc(before, cols[c], n);
        } else {
          assert next[c] == prev[c] && SentsBelow(prev[c], n);
        }
      }
    }
  }

  /** `doc_to_toks`: each column's sentences flattened into one token list. */
  function DocToToks(lines: seq<string>): (r: Result<seq<seq<Token>>, Error>)
    ensures r.Ok? <==> DocColumns(SplitSents(StripAll(lines))).Ok?
    ensures r.Err? ==> r.error == DocColumns(SplitSents(StripAll(lines))).error
    ensures var g := DocColumns(SplitSents(StripAll(lines)));
      r.Ok? ==> (|r.value| == |g.value| && forall c :: 0 <= c < |g.value| ==> r.value[c] == Lists.Flatten(g.value[c]))
    ensures r.Ok? ==> forall c, t :: 0 <= c < |r.value| && t in r.value[c] ==> Tags.Valid(t)
  {
    match DocColumns(SplitSents(StripAll(lines)))
    case Err(e) => Err(e)
    case Ok(tokses) =>
      ColumnsValid(tokses);
      Ok(Lists.FlattenEach(tokses))
  }

  /** Every token of every flattened column of well-formed sentences is well formed. */
  lemma {:induction false} ColumnsValid(tokses: seq<seq<seq<Token>>>)
    requires forall c, j :: 0 <= c < |tokses| && 0 <= j < |tokses[c]| ==> OneSentence(tokses[c][j])
    ensures forall c, t :: 0 <= c < |tokses| && t in Lists.Flatten(tokses[c]) ==> Tags.Valid(t)
  {
    forall c, t | 0 <= c < |tokses| && t in Lists.Flatten(tokses[c]) ensures Tags.Valid(t) {
      var j :| 0 <= j < |tokses[c]| && t in tokses[c][j];
      var w :| 0 <= w < |tokses[c][j]| && tokses[c][j][w] == t;
      assert OneSentence(tokses[c][j]);
    }
  }
}
