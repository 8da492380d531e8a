/** From a document to scores: which entities are scored (`non_other`,
    `filter_entities`, `drop_other_entities`, `get_tags`), the entities of
    every source column (`doc_to_entitieses`, `doc_to_entities`), and the
    result rows `fmt_results` reports. */
module Evaluation {
  import opened Records
  import Text
  import Lists
  import Tags
  import Sentences
  import Segmenter
  import Scoring

  /** `non_other`: the entity has a type. */
  predicate NonOther(e: Entity)
  {
    e.tag != OTag
  }

  /** For an entity the segmenter can build from parsed tokens, having a
      type means having one of the six vocabulary types. */
  lemma {:induction false} NonOtherTyped(e: Entity)
    requires e.tag == OTag || e.tag in Tags.WnutTags
    ensures NonOther(e) <==> e.tag in Tags.WnutTags
  {
  }

  /** `filter_entities`: the entities satisfying `p`, in order. */
  function FilterEntities(es: seq<Entity>, p: Entity -> bool): (r: seq<Entity>)
    ensures |r| <= |es|
    ensures forall e :: e in r <==> e in es && p(e)
    ensures (forall i :: 0 <= i < |es| ==> p(es[i])) ==> r == es
  {
    if |es| == 0 then []
    else
      var init := es[..|es| - 1];
      assert (forall i :: 0 <= i < |es| ==> p(es[i])) ==> forall i :: 0 <= i < |init| ==> p(init[i]);
      FilterEntities(init, p) + (if p(es[|es| - 1]) then [es[|es| - 1]] else [])
  }

  /** Filtering distributes over concatenation, so it keeps the order of
      the entities it keeps. */
  lemma {:induction false} FilterAppend(a: seq<Entity>, b: seq<Entity>, p: Entity -> bool)
    ensures FilterEntities(a + b, p) == FilterEntities(a, p) + FilterEntities(b, p)
    decreases |b|
  {
    if |b| == 0 {
      assert a + b == a;
    } else {
      var init := b[..|b| - 1];
      var last := b[|b| - 1];
      var kept := if p(last) then [last] else [];
      assert (a + b)[..|a + b| - 1] == a + init;
      assert (a + b)[|a + b| - 1] == last;
      calc {
        FilterEntities(a + b, p);
        FilterEntities(a + init, p) + kept;
        { FilterAppend(a, init, p); }
        FilterEntities(a, p) + FilterEntities(init, p) + kept;
        FilterEntities(a, p) + FilterEntities(b, p);
      }
    }
  }

  /** `drop_other_entities`: the entities that have a type. */
  function DropOtherEntities(es: seq<Entity>): (r: seq<Entity>)
    ensures forall e :: e in r <==> e in es && e.tag != OTag
  {
    FilterEntities(es, NonOther)
  }

  /** The entities of one type. */
  function OfTag(es: seq<Entity>, tag: string): (r: seq<Entity>)
    ensures forall e :: e in r <==> e in es && e.tag == tag
  {
    FilterEntities(es, (e: Entity) => e.tag == tag)
  }

  /** `get_tags`: the types that occur, without `O`. */
  function GetTags(es: seq<Entity>): (r: set<string>)
    ensures forall t :: t in r <==> t != OTag && exists e :: e in es && e.tag == t
  {
    (set e | e in es :: e.tag) - {OTag}
  }

  /** `m` comes before every other element of `s`. */
  predicate IsLeast(m: string, s: set<string>)
  {
    m in s && forall t :: t in s && t != m ==> Text.LexLess(m, t)
  }

  lemma {:induction false} HasLeast(s: set<string>)
    requires s != {}
    ensures exists m :: IsLeast(m, s)
    decreases |s|
  {
    var x :| x in s;
    if s != {x} {
      HasLeast(s - {x});
      var m :| IsLeast(m, s - {x});
      Text.LexLessTotal(m, x);
      if Text.LexLess(x, m) {
        forall t | t in s && t != x ensures Text.LexLess(x, t) {
          if t != m { Text.LexLessTransitive(x, m, t); }
        }
        assert IsLeast(x, s);
      } else {
        assert IsLeast(m, s);
      }
    } else {
      assert IsLeast(x, s);
    }
  }

  lemma {:induction false} LeastUnique(s: set<string>)
    ensures forall a, b :: IsLeast(a, s) && IsLeast(b, s) ==> a == b
  {
    forall a, b | IsLeast(a, s) && IsLeast(b, s) ensures a == b {
      if a != b {
        Text.LexLessTransitive(a, b, a);
        Text.LexLessIrreflexive(a);
      }
    }
  }

  /** `sorted` on a set of types: its elements in increasing code-point
      order, each once. */
  function SortedTags(s: set<string>): (r: seq<string>)
    ensures |r| == |s|
    ensures forall t :: t in r <==> t in s
    ensures forall i, j :: 0 <= i < j < |r| ==> Text.LexLess(r[i], r[j])
    decreases |s|
  {
    if s == {} then []
    else
      HasLeast(s);
      LeastUnique(s);
      var m :| IsLeast(m, s);
      var rest := SortedTags(s - {m});
      LeastFirst(m, s, rest);
      [m] + rest
  }

  /** The least element of a set, then the sorted rest of it, is sorted. */
  lemma {:induction false} LeastFirst(m: string, s: set<string>, rest: seq<string>)
    requires IsLeast(m, s)
    requires forall t :: t in rest <==> t in s - {m}
    requires forall i, j :: 0 <= i < j < |rest| ==> Text.LexLess(rest[i], rest[j])
    ensures forall t :: t in [m] + rest <==> t in s
    ensures forall i, j :: 0 <= i < j < |[m] + rest| ==> Text.LexLess(([m] + rest)[i], ([m] + rest)[j])
  {
    var r := [m] + rest;
    forall i, j | 0 <= i < j < |r| ensures Text.LexLess(r[i], r[j]) {
      assert r[j] == rest[j - 1];
      if i == 0 {
        assert rest[j - 1] in rest;
      } else {
        assert r[i] == rest[i - 1];
      }
    }
  }

  /** The entity lists of a column's sentences and the warnings raised
      while segmenting them. */
  datatype Segmented = Segmented(entitieses: seq<seq<Entity>>, warnings: seq<Warning>)

  /** `[toks_to_entities(toks) for toks in tokses]`: segment every sentence
      of a column, stopping at the first sentence the segmenter rejects. */
  function SegmentSents(tokses: seq<seq<Token>>): (r: Result<Segmented, Error>)
    requires forall j :: 0 <= j < |tokses| ==> |tokses[j]| > 0
    ensures r.Ok? ==> |r.value.entitieses| == |tokses|
  {
    if |tokses| == 0 then Ok(Segmented([], []))
    else
      match SegmentSents(tokses[..|tokses| - 1])
      case Err(e) => Err(e)
      case Ok(prev) =>
        match Segmenter.Segment(tokses[|tokses| - 1])
        case Err(e) => Err(e)
        case Ok(seg) => Ok(Segmented(prev.entitieses + [seg.entities], prev.warnings + seg.warnings))
  }

  /** Every sentence of the list segments. */
  predicate AllSegment(tokses: seq<seq<Token>>)
    requires forall j :: 0 <= j < |tokses| ==> |tokses[j]| > 0
  {
    forall j :: 0 <= j < |tokses| ==> Segmenter.Segment(tokses[j]).Ok?
  }

  /** Sentence j is the first of the list the segmenter rejects. */
  predicate FirstBadSentence(tokses: seq<seq<Token>>, j: int)
    requires forall j :: 0 <= j < |tokses| ==> |tokses[j]| > 0
  {
    0 <= j < |tokses| && Segmenter.Segment(tokses[j]).Err?
    && forall i :: 0 <= i < j ==> Segmenter.Segment(tokses[i]).Ok?
  }

  /** A column segments exactly when each of its sentences does, and then
      holds each sentence's entities in sentence order; otherwise it fails
      with the error of its first rejected sentence. */
  lemma {:induction false} SegmentSentsSpec(tokses: seq<seq<Token>>)
    requires forall j :: 0 <= j < |tokses| ==> |tokses[j]| > 0
    ensures SegmentSents(tokses).Ok? <==> AllSegment(tokses)
    ensures SegmentSents(tokses).Ok? ==> forall j :: 0 <= j < |tokses| ==>
      SegmentSents(tokses).value.entitieses[j] == Segmenter.Segment(tokses[j]).value.entities
    ensures SegmentSents(tokses).Err? ==>
      exists j :: FirstBadSentence(tokses, j) && Segmenter.Segment(tokses[j]).error == SegmentSents(tokses).error
  {
    if |tokses| > 0 {
      var n := |tokses| - 1;
      var init := tokses[..n];
      SegmentSentsSpec(init);
      assert forall j :: 0 <= j < n ==> init[j] == tokses[j];
      if SegmentSents(init).Err? {
        var j :| FirstBadSentence(init, j) && Segmenter.Segment(init[j]).error == SegmentSents(init).error;
        assert FirstBadSentence(tokses, j);
      } else if Segmenter.Segment(tokses[n]).Err? {
        assert FirstBadSentence(tokses, n);
      }
    }
  }

  /** The entity lists of every column's sentences, and all warnings. */
  datatype DocSegmented = DocSegmented(columns: seq<seq<seq<Entity>>>, warnings: seq<Warning>)

  /** Sentence lists whose every sentence has a token. */
  predicate NonEmptySents(cols: seq<seq<seq<Token>>>)
  {
    forall c, j :: 0 <= c < |cols| && 0 <= j < |cols[c]| ==> |cols[c][j]| > 0
  }

  /** Segment every column, in column order. */
  function SegmentColumns(cols: seq<seq<seq<Token>>>): (r: Result<DocSegmented, Error>)
    requires NonEmptySents(cols)
    ensures r.Ok? ==> |r.value.columns| == |cols|
  {
    if |cols| == 0 then Ok(DocSegmented([], []))
    else
      match SegmentColumns(cols[..|cols| - 1])
      case Err(e) => Err(e)
      case Ok(prev) =>
        match SegmentSents(cols[|cols| - 1])
        case Err(e) => Err(e)
        case Ok(seg) => Ok(DocSegmented(prev.columns + [seg.entitieses], prev.warnings + seg.warnings))
  }

  /** The document segments exactly when each column does, and then holds
      each column's entity lists in column order. */
  lemma {:induction false} SegmentColumnsSpec(cols: seq<seq<seq<Token>>>)
    requires NonEmptySents(cols)
    ensures SegmentColumns(cols).Ok? <==> forall c :: 0 <= c < |cols| ==> SegmentSents(cols[c]).Ok?
    ensures SegmentColumns(cols).Ok? ==> forall c :: 0 <= c < |cols| ==>
      SegmentColumns(cols).value.columns[c] == SegmentSents(cols[c]).value.entitieses
  {
    if |cols| > 0 {
      var n := |cols| - 1;
      var init := cols[..n];
      SegmentColumnsSpec(init);
      assert forall c :: 0 <= c < n ==> init[c] == cols[c];
    }
  }

  /** Column c is the first that does not segment. */
  predicate FirstBadColumn(cols: seq<seq<seq<Token>>>, c: int)
    requires NonEmptySents(cols)
  {
    0 <= c < |cols| && SegmentSents(cols[c]).Err? && forall d :: 0 <= d < c ==> SegmentSents(cols[d]).Ok?
  }

  /** A document that does not segment fails with the error of its first
      column that does not. */
  lemma {:induction false} SegmentColumnsErr(cols: seq<seq<seq<Token>>>)
    requires NonEmptySents(cols) && SegmentColumns(cols).Err?
    ensures exists c :: FirstBadColumn(cols, c) && SegmentSents(cols[c]).error == SegmentColumns(cols).error
  {
    var n := |cols| - 1;
    var init := cols[..n];
    assert forall c :: 0 <= c < n ==> init[c] == cols[c];
    if SegmentColumns(init).Err? {
      SegmentColumnsErr(init);
      var c :| FirstBadColumn(init, c) && SegmentSents(init[c]).error == SegmentColumns(init).error;
      assert FirstBadColumn(cols, c);
    } else {
      SegmentColumnsSpec(init);
      assert FirstBadColumn(cols, n);
    }
  }

  /** `doc_to_entitieses`: the entity lists of every column's sentences.
      A grouping error comes first; otherwise the document fails with the
      error of the first column that does not segment, and succeeds when
      every column does, with each column's sentences segmented in order. */
  function DocToEntitieses(lines: seq<string>): (r: Result<DocSegmented, Error>)
    ensures var g := Sentences.DocColumns(Sentences.SplitSents(Sentences.StripAll(lines)));
      g.Err? ==> r == Err(g.error)
    ensures var g := Sentences.DocColumns(Sentences.SplitSents(Sentences.StripAll(lines)));
      g.Ok? ==> (NonEmptySents(g.value) && (r.Ok? <==> forall c :: 0 <= c < |g.value| ==> SegmentSents(g.value[c]).Ok?))
    ensures var g := Sentences.DocColumns(Sentences.SplitSents(Sentences.StripAll(lines)));
      r.Ok? ==> (g.Ok? && |r.value.columns| == |g.value|
        && forall c :: 0 <= c < |g.value| ==> r.value.columns[c] == SegmentSents(g.value[c]).value.entitieses)
    ensures var g := Sentences.DocColumns(Sentences.SplitSents(Sentences.StripAll(lines)));
      g.Ok? && r.Err? ==> exists c :: FirstBadColumn(g.value, c) && SegmentSents(g.value[c]).error == r.error
  {
    match Sentences.DocColumns(Sentences.SplitSents(Sentences.StripAll(lines)))
    case Err(e) => Err(e)
    case Ok(tokses) =>
      assert NonEmptySents(tokses) by {
        forall c, j | 0 <= c < |tokses| && 0 <= j < |tokses[c]| ensures |tokses[c][j]| > 0 {
          assert Sentences.OneSentence(tokses[c][j]);
        }
      }
      SegmentColumnsSpec(tokses);
      if SegmentColumns(tokses).Err? then SegmentColumnsErr(tokses); SegmentColumns(tokses)
      else SegmentColumns(tokses)
  }

  /** `doc_to_entities`: each column's entity lists flattened into one. */
  function DocToEntities(lines: seq<string>): (r: Result<(seq<seq<Entity>>, seq<Warning>), Error>)
    ensures r.Ok? <==> DocToEntitieses(lines).Ok?
    ensures r.Ok? ==> |r.value.0| == |DocToEntitieses(lines).value.columns|
    ensures r.Err? ==> r.error == DocToEntitieses(lines).error
    ensures var d := DocToEntitieses(lines);
      r.Ok? ==> (r.value.1 == d.value.warnings
        && forall c :: 0 <= c < |d.value.columns| ==> r.value.0[c] == Lists.Flatten(d.value.columns[c]))
  {
    match DocToEntitieses(lines)
    case Err(e) => Err(e)
    case Ok(d) => Ok((Lists.FlattenEach(d.columns), d.warnings))
  }

  lemma {:induction false} FlattenSnoc<T(!new)>(xs: seq<seq<T>>, x: seq<T>)
    ensures Lists.Flatten(xs + [x]) == Lists.Flatten(xs) + x
  {
    assert (xs + [x])[..|xs|] == xs;
  }

  /** A column's entities spell out the column's words, sentence after
      sentence. */
  lemma {:induction false} ColumnWords(tokses: seq<seq<Token>>)
    requires forall j :: 0 <= j < |tokses| ==> |tokses[j]| > 0
    requires SegmentSents(tokses).Ok?
    ensures Segmenter.Spelling(Lists.Flatten(SegmentSents(tokses).value.entitieses))
      == Segmenter.Words(Lists.Flatten(tokses))
  {
    if |tokses| > 0 {
      var n := |tokses| - 1;
      var init := tokses[..n];
      ColumnWords(init);
      var prev := SegmentSents(init).value.entitieses;
      var seg := Segmenter.Segment(tokses[n]).value;
      assert SegmentSents(tokses).value.entitieses == prev + [seg.entities];
      FlattenSnoc(prev, seg.entities);
      assert tokses == init + [tokses[n]];
      FlattenSnoc(init, tokses[n]);
      Segmenter.SpellingConcat(Lists.Flatten(prev), seg.entities);
      Segmenter.WordsConcat(Lists.Flatten(init), tokses[n]);
      Segmenter.SegmentWords(tokses[n]);
      assert Segmenter.Spelling(seg.entities) == Segmenter.Words(tokses[n]);
    }
  }

  /** Across the whole document, each column's entities spell out that
      column's words in order: segmentation loses, adds and reorders none. */
  lemma {:induction false} DocWords(lines: seq<string>)
    requires DocToEntities(lines).Ok?
    ensures Sentences.DocToToks(lines).Ok?
    ensures |Sentences.DocToToks(lines).value| == |DocToEntities(lines).value.0|
    ensures forall c :: 0 <= c < |DocToEntities(lines).value.0| ==>
      Segmenter.Spelling(DocToEntities(lines).value.0[c]) == Segmenter.Words(Sentences.DocToToks(lines).value[c])
  {
    var tokses := Sentences.DocColumns(Sentences.SplitSents(Sentences.StripAll(lines))).value;
    SegmentColumnsSpec(tokses);
    forall c | 0 <= c < |tokses|
      ensures Segmenter.Spelling(DocToEntities(lines).value.0[c]) == Segmenter.Words(Sentences.DocToToks(lines).value[c])
    {
      ColumnWords(tokses[c]);
    }
  }

  /** In any document, every entity of every column has at least one word,
      and exactly one when it has no type. */
  lemma {:induction false} DocShaped(lines: seq<string>)
    requires DocToEntities(lines).Ok?
    ensures forall c, e :: 0 <= c < |DocToEntities(lines).value.0| && e in DocToEntities(lines).value.0[c] ==>
      Segmenter.Shaped(e)
  {
    var tokses := Sentences.DocColumns(Sentences.SplitSents(Sentences.StripAll(lines))).value;
    SegmentColumnsSpec(tokses);
    var cols := DocToEntities(lines).value.0;
    forall c, e | 0 <= c < |cols| && e in cols[c]
      ensures Segmenter.Shaped(e)
    {
      SegmentSentsSpec(tokses[c]);
      var ess := SegmentSents(tokses[c]).value.entitieses;
      var j :| 0 <= j < |ess| && e in ess[j];
      assert Sentences.OneSentence(tokses[c][j]);
      Segmenter.SegmentShaped(tokses[c][j]);
    }
  }

  /** In a document whose lines all carry the same number of tag fields,
      every entity of every column is well formed: at least one word, `stop`
      one past its last word, and a lone word when it has no type. */
  lemma {:induction false} DocWellFormed(lines: seq<string>, n: nat)
    requires Sentences.UniformDoc(Sentences.SplitSents(Sentences.StripAll(lines)), n)
    requires DocToEntities(lines).Ok?
    ensures forall c, e :: 0 <= c < |DocToEntities(lines).value.0| && e in DocToEntities(lines).value.0[c] ==>
      Segmenter.WellFormed(e)
  {
    var sents := Sentences.SplitSents(Sentences.StripAll(lines));
    var tokses := Sentences.DocColumns(sents).value;
    Sentences.UniformDocConsecutive(sents, n);
    SegmentColumnsSpec(tokses);
    var cols := DocToEntities(lines).value.0;
    forall c, e | 0 <= c < |cols| && e in cols[c]
      ensures Segmenter.WellFormed(e)
    {
      SegmentSentsSpec(tokses[c]);
      var ess := SegmentSents(tokses[c]).value.entitieses;
      assert cols[c] == Lists.Flatten(ess);
      var j :| 0 <= j < |ess| && e in ess[j];
      var toks := tokses[c][j];
      assert Sentences.Consecutive(toks);
      assert Segmenter.ConsecutiveFrom(toks, 0);
      Segmenter.SegmentWellFormed(toks, 0);
    }
  }

  lemma {:induction false} DistinctConcat(a: seq<Entity>, b: seq<Entity>)
    requires Scoring.Distinct(a) && Scoring.Distinct(b)
    requires forall x :: x in a ==> x !in b
    ensures Scoring.Distinct(a + b)
  {
    var ab := a + b;
    forall i, j | 0 <= i < j < |ab| ensures ab[i] != ab[j] {
      if j < |a| {
        assert ab[i] == a[i] && ab[j] == a[j];
      } else if i >= |a| {
        assert ab[i] == b[i - |a|] && ab[j] == b[j - |a|];
      } else {
        assert ab[i] == a[i] && a[i] in a && ab[j] == b[j - |a|];
      }
    }
  }

  /** Entities with strictly increasing starts are all different. */
  lemma {:induction false} StartsDistinct(es: seq<Entity>)
    requires Segmenter.StartsIncrease(es)
    ensures Scoring.Distinct(es)
  {
    forall i, j | 0 <= i < j < |es| ensures es[i] != es[j] {
      assert es[i].start < es[j].start;
    }
  }

  /** A column whose sentences carry strictly increasing sentence ids, each
      with strictly increasing word ids, segments into entities of which no
      two are equal, all of sentences below `n`. */
  lemma {:induction false} ColumnDistinct(tokses: seq<seq<Token>>, n: int)
    requires Sentences.SentsBelow(tokses, n)
    requires SegmentSents(tokses).Ok?
    ensures Scoring.Distinct(Lists.Flatten(SegmentSents(tokses).value.entitieses))
    ensures forall e :: e in Lists.Flatten(SegmentSents(tokses).value.entitieses) ==> e.sentId < n
  {
    if |tokses| > 0 {
      var m := |tokses| - 1;
      var init := tokses[..m];
      var toks := tokses[m];
      var s := toks[0].sentId;
      Sentences.SentsBelowInit(tokses, n);
      ColumnDistinct(init, s);
      var prev := SegmentSents(init).value.entitieses;
      var es := Segmenter.Segment(toks).value.entities;
      assert SegmentSents(tokses).value.entitieses == prev + [es];
      FlattenSnoc(prev, es);
      Segmenter.SegmentOrdered(toks);
      StartsDistinct(es);
      DistinctConcat(Lists.Flatten(prev), es);
    }
  }

  /** Within each column of a document, no entity occurs twice: entities
      of different sentences differ in their sentence id, and entities of
      one sentence in their start. So are the typed ones, so the exact
      comparison of a column with itself scores 1. */
  lemma {:induction false} DocEntitiesDistinct(lines: seq<string>)
    requires DocToEntities(lines).Ok?
    ensures forall c :: 0 <= c < |DocToEntities(lines).value.0| ==>
      Scoring.Distinct(DocToEntities(lines).value.0[c])
      && Scoring.Distinct(DropOtherEntities(DocToEntities(lines).value.0[c]))
  {
    var sents := Sentences.SplitSents(Sentences.StripAll(lines));
    var tokses := Sentences.DocColumns(sents).value;
    Sentences.DocColumnsOrdered(sents);
    SegmentColumnsSpec(tokses);
    var cols := DocToEntities(lines).value.0;
    forall c | 0 <= c < |cols|
      ensures Scoring.Distinct(cols[c]) && Scoring.Distinct(DropOtherEntities(cols[c]))
    {
      ColumnDistinct(tokses[c], |sents|);
      FilterDistinct(cols[c], NonOther);
    }
  }

  /** A column's typed entities, scored exactly against themselves, give
      p = r = f = 1 whenever there is one. */
  lemma {:induction false} DocSelfPerfect(lines: seq<string>, c: nat)
    requires DocToEntities(lines).Ok? && c < |DocToEntities(lines).value.0|
    requires |DropOtherEntities(DocToEntities(lines).value.0[c])| > 0
    ensures var typed := DropOtherEntities(DocToEntities(lines).value.0[c]);
      var res := Scoring.CalcResults(typed, typed, false);
      res.p == 1.0 && res.r == 1.0 && res.f == 1.0
  {
    DocEntitiesDistinct(lines);
    Scoring.ExactIdentical(DropOtherEntities(DocToEntities(lines).value.0[c]));
  }

  /** Filtering keeps a list free of repeats. */
  lemma {:induction false} FilterDistinct(es: seq<Entity>, p: Entity -> bool)
    requires Scoring.Distinct(es)
    ensures Scoring.Distinct(FilterEntities(es, p))
  {
    if |es| > 0 {
      var init := es[..|es| - 1];
      var last := es[|es| - 1];
      assert Scoring.Distinct(init);
      FilterDistinct(init, p);
      assert last !in init;
      var kept: seq<Entity> := if p(last) then [last] else [];
      DistinctConcat(FilterEntities(init, p), kept);
    }
  }

  /** What `fmt_results` reports, before rendering: token-level results (for
      accuracy), results over the typed entities, the accuracy when there is
      a gold token, and one row per gold type in sorted order. */
  datatype Report = Report(
    tokens: Scoring.Results,
    tagged: Scoring.Results,
    accuracy: Option<real>,
    rows: seq<(string, Scoring.Results)>)

  /** The per-type rows: each type's gold and guessed entities scored alone. */
  function TagRows(gold: seq<Entity>, guess: seq<Entity>, ts: seq<string>, surfaceForm: bool): (r: seq<(string, Scoring.Results)>)
    ensures |r| == |ts| && forall i :: 0 <= i < |ts| ==> r[i].0 == ts[i]
    ensures forall i :: 0 <= i < |ts| ==> Scoring.Bounded(r[i].1)
    ensures forall i :: 0 <= i < |ts| ==> Scoring.ScoresOf(r[i].1, OfTag(gold, ts[i]), OfTag(guess, ts[i]), surfaceForm)
  {
    seq(|ts|, i requires 0 <= i < |ts| => TagRow(gold, guess, ts[i], surfaceForm))
  }

  /** One type's row: its gold and guessed entities scored alone. */
  function TagRow(gold: seq<Entity>, guess: seq<Entity>, t: string, surfaceForm: bool): (row: (string, Scoring.Results))
    ensures row.0 == t && Scoring.Bounded(row.1)
    ensures Scoring.ScoresOf(row.1, OfTag(gold, t), OfTag(guess, t), surfaceForm)
  {
    (t, Scoring.CalcResults(OfTag(gold, t), OfTag(guess, t), surfaceForm))
  }

  /** The rows of `fmt_results`: one per type of the gold entities, in
      sorted order, each type once. */
  function TypeRows(gold: seq<Entity>, guess: seq<Entity>, surfaceForm: bool): (rows: seq<(string, Scoring.Results)>)
    ensures |rows| == |GetTags(gold)|
    ensures forall t :: t in GetTags(gold) <==> exists i :: 0 <= i < |rows| && rows[i].0 == t
    ensures forall i, j :: 0 <= i < j < |rows| ==> Text.LexLess(rows[i].0, rows[j].0)
    ensures forall i :: 0 <= i < |rows| ==>
      Scoring.ScoresOf(rows[i].1, OfTag(gold, rows[i].0), OfTag(guess, rows[i].0), surfaceForm)
  {
    var ts := SortedTags(GetTags(gold));
    var rows := TagRows(gold, guess, ts, surfaceForm);
    forall t | t in GetTags(gold)
      ensures exists i :: 0 <= i < |rows| && rows[i].0 == t
    {
      var i :| 0 <= i < |ts| && ts[i] == t;
      assert rows[i].0 == t;
    }
    forall i | 0 <= i < |rows|
      ensures rows[i].0 in GetTags(gold)
    {
      assert rows[i].0 == ts[i] && ts[i] in ts;
    }
    forall i, j | 0 <= i < j < |rows|
      ensures Text.LexLess(rows[i].0, rows[j].0)
    {
      assert rows[i].0 == ts[i] && rows[j].0 == ts[j];
    }
    forall i | 0 <= i < |rows|
      ensures Scoring.ScoresOf(rows[i].1, OfTag(gold, rows[i].0), OfTag(guess, rows[i].0), surfaceForm)
    {
      assert rows[i].0 == ts[i];
    }
    rows
  }

  /** `fmt_results` with `sys_1` as the system: fails on the first absent
      column it looks up (gold entities, system entities, gold tokens,
      system tokens). */
  function FmtResults(tokens: seq<seq<Token>>, entities: seq<seq<Entity>>, surfaceForm: bool): (r: Result<Report, Error>)
    ensures r.Err? <==> |entities| < 2 || |tokens| < 2
    ensures r.Err? ==> r.error == MissingSource(if |entities| < 2 then |entities| else |tokens|)
    ensures r.Ok? ==> Scoring.ExactScores(r.value.tokens, tokens[0], tokens[1])
    ensures r.Ok? ==>
      Scoring.ScoresOf(r.value.tagged, DropOtherEntities(entities[0]), DropOtherEntities(entities[1]), surfaceForm)
    ensures r.Ok? ==> (r.value.accuracy.Some? <==> r.value.tokens.gold > 0)
    ensures r.Ok? && r.value.accuracy.Some? ==>
      r.value.accuracy.value == Scoring.Ratio(r.value.tokens.correct, r.value.tokens.gold)
      && 0.0 <= r.value.accuracy.value <= 1.0
    ensures r.Ok? ==> r.value.rows == TypeRows(entities[0], entities[1], surfaceForm)
  {
    if |entities| < 2 then Err(MissingSource(|entities|))
    else if |tokens| < 2 then Err(MissingSource(|tokens|))
    else
      var tokenResults := Scoring.ExactResults(tokens[0], tokens[1]);
      var tagged := Scoring.CalcResults(DropOtherEntities(entities[0]), DropOtherEntities(entities[1]), surfaceForm);
      var accuracy := if tokenResults.gold > 0 then Some(Scoring.Ratio(tokenResults.correct, tokenResults.gold)) else None;
      Ok(Report(tokenResults, tagged, accuracy, TypeRows(entities[0], entities[1], surfaceForm)))
  }

  /** The gold counts of some rows, added up. */
  function GoldTotal(rows: seq<(string, Scoring.Results)>): nat
  {
    if |rows| == 0 then 0 else GoldTotal(rows[..|rows| - 1]) + rows[|rows| - 1].1.gold
  }

  /** How many entities have each of the types `ts`, added up. */
  function CountTags(es: seq<Entity>, ts: seq<string>): nat
  {
    if |ts| == 0 then 0 else CountTags(es, ts[..|ts| - 1]) + |OfTag(es, ts[|ts| - 1])|
  }

  /** How often `x` occurs in `ts`. */
  function Occurrences(ts: seq<string>, x: string): nat
  {
    if |ts| == 0 then 0 else Occurrences(ts[..|ts| - 1], x) + (if ts[|ts| - 1] == x then 1 else 0)
  }

  lemma {:induction false} OccurrencesDistinct(ts: seq<string>, x: string)
    requires Scoring.Distinct(ts)
    ensures Occurrences(ts, x) == if x in ts then 1 else 0
  {
    if |ts| > 0 {
      var init := ts[..|ts| - 1];
      assert Scoring.Distinct(init);
      OccurrencesDistinct(init, x);
      assert ts == init + [ts[|ts| - 1]];
      if ts[|ts| - 1] == x {
        assert x !in init by {
          forall i | 0 <= i < |init| ensures init[i] != x {
            assert ts[i] != ts[|ts| - 1];
          }
        }
      }
    }
  }

  lemma {:induction false} OfTagSnoc(es: seq<Entity>, e: Entity, t: string)
    ensures OfTag(es + [e], t) == OfTag(es, t) + (if e.tag == t then [e] else [])
  {
    assert (es + [e])[..|es|] == es;
  }

  lemma {:induction false} CountTagsSnoc(es: seq<Entity>, e: Entity, ts: seq<string>)
    ensures CountTags(es + [e], ts) == CountTags(es, ts) + Occurrences(ts, e.tag)
  {
    if |ts| > 0 {
      CountTagsSnoc(es, e, ts[..|ts| - 1]);
      OfTagSnoc(es, e, ts[|ts| - 1]);
    }
  }

  lemma {:induction false} CountTagsEmpty(ts: seq<string>)
    ensures CountTags([], ts) == 0
  {
    if |ts| > 0 { CountTagsEmpty(ts[..|ts| - 1]); }
  }

  /** With distinct types, none of them `O`, that cover every typed entity,
      the per-type counts add up to the number of typed entities. */
  lemma {:induction false} CountTagsTyped(es: seq<Entity>, ts: seq<string>)
    requires Scoring.Distinct(ts) && OTag !in ts
    requires forall i :: 0 <= i < |es| && es[i].tag != OTag ==> es[i].tag in ts
    ensures CountTags(es, ts) == |DropOtherEntities(es)|
  {
    if |es| == 0 {
      CountTagsEmpty(ts);
    } else {
      var init := es[..|es| - 1];
      var e := es[|es| - 1];
      assert es == init + [e];
      CountTagsTyped(init, ts);
      CountTagsSnoc(init, e, ts);
      OccurrencesDistinct(ts, e.tag);
      assert (init + [e])[..|init|] == init;
    }
  }

  lemma {:induction false} TagRowsGold(gold: seq<Entity>, guess: seq<Entity>, ts: seq<string>)
    ensures GoldTotal(TagRows(gold, guess, ts, false)) == CountTags(gold, ts)
  {
    if |ts| > 0 {
      var init := ts[..|ts| - 1];
      TagRowsGold(gold, guess, init);
      var rows := TagRows(gold, guess, ts, false);
      assert rows[..|rows| - 1] == TagRows(gold, guess, init, false);
    }
  }

  /** Without surface forms, the per-type rows split the typed gold entities:
      their gold counts add up to the overall gold count. */
  lemma {:induction false} RowsSplitGold(tokens: seq<seq<Token>>, entities: seq<seq<Entity>>)
    requires FmtResults(tokens, entities, false).Ok?
    ensures GoldTotal(FmtResults(tokens, entities, false).value.rows) == FmtResults(tokens, entities, false).value.tagged.gold
  {
    TypeRowsSplitGold(entities[0], entities[1], SortedTags(GetTags(entities[0])));
  }

  /** The gold counts of the rows of the sorted gold types add up to the
      typed gold entities. */
  lemma {:induction false} TypeRowsSplitGold(gold: seq<Entity>, guess: seq<Entity>, ts: seq<string>)
    requires ts == SortedTags(GetTags(gold))
    ensures GoldTotal(TagRows(gold, guess, ts, false)) == |DropOtherEntities(gold)|
  {
    TagRowsGold(gold, guess, ts);
    SortedDistinct(ts);
    GoldTypesListed(gold, ts);
    CountTagsTyped(gold, ts);
  }

  /** A strictly increasing list has no repeats. */
  lemma {:induction false} SortedDistinct(ts: seq<string>)
    requires forall i, j :: 0 <= i < j < |ts| ==> Text.LexLess(ts[i], ts[j])
    ensures Scoring.Distinct(ts)
  {
    forall i, j | 0 <= i < j < |ts| ensures ts[i] != ts[j] {
      if ts[i] == ts[j] { Text.LexLessIrreflexive(ts[i]); }
    }
  }

  /** Every typed gold entity's type is among the sorted gold types, and `O` is not. */
  lemma {:induction false} GoldTypesListed(gold: seq<Entity>, ts: seq<string>)
    requires ts == SortedTags(GetTags(gold))
    ensures OTag !in ts
    ensures forall i :: 0 <= i < |gold| && gold[i].tag != OTag ==> gold[i].tag in ts
  {
    forall i | 0 <= i < |gold| && gold[i].tag != OTag ensures gold[i].tag in ts {
      assert gold[i].tag in GetTags(gold);
    }
  }
}
