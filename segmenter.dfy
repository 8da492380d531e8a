/** The BIO segmenter `toks_to_entities` and its inverse `entity_to_tokens`.
    The segmenter is a left fold over a sentence's tokens that keeps the
    entity in progress last in its accumulator: an `I` token of the same type
    extends it, a `B` token or a plain `O` token starts a new one, an `I`
    token of another type starts a new one with a warning, and any other
    token (an `O` marker with an entity type) is fatal. */
module Segmenter {
  import opened Records
  import Text
  import Tags

  /** `make_entity`: the one-word entity of a token. */
  function MakeEntity(tok: Token): Entity
  {
    Entity([tok.word], tok.sentId, tok.wordId, tok.wordId + 1, tok.tag)
  }

  /** The entity of a token is well formed and on its own partitions the
      one-token sentence. */
  lemma {:induction false} MakeEntitySpec(tok: Token)
    ensures WellFormed(MakeEntity(tok)) && Partition([MakeEntity(tok)], [tok], tok.wordId)
  {
  }

  /** `extend_entity`: the entity grown by one token, ending after it. */
  function ExtendEntity(e: Entity, tok: Token): Entity
  {
    Entity(e.words + [tok.word], e.sentId, e.start, tok.wordId + 1, e.tag)
  }

  /** Extending keeps the entity's words as a prefix and its start, type and
      sentence, and ends it after the token; a typed well-formed entity
      extended by the token right after it stays well formed. */
  lemma {:induction false} ExtendEntitySpec(e: Entity, tok: Token)
    ensures var r := ExtendEntity(e, tok);
      && |r.words| == |e.words| + 1 && r.words[..|e.words|] == e.words && r.words[|e.words|] == tok.word
      && r.sentId == e.sentId && r.start == e.start && r.stop == tok.wordId + 1 && r.tag == e.tag
    ensures WellFormed(e) && e.stop == tok.wordId && e.tag != OTag ==> WellFormed(ExtendEntity(e, tok))
  {
  }

  /** The accumulator of the fold: the entities so far (the last one is in
      progress) and the warnings reported on the way. */
  datatype Segmentation = Segmentation(entities: seq<Entity>, warnings: seq<Warning>)

  /** The reducer: pop the entity in progress and push back one or two entities. */
  function Reduce(seg: Segmentation, tok: Token): (r: Result<Segmentation, Error>)
    requires |seg.entities| > 0
  {
    var rest := seg.entities[..|seg.entities| - 1];
    var last := seg.entities[|seg.entities| - 1];
    if tok.bio == I && tok.tag == last.tag then
      Ok(Segmentation(rest + [ExtendEntity(last, tok)], seg.warnings))
    else if tok.bio == B || (tok.bio == O && tok.tag == OTag) then
      Ok(Segmentation(rest + [last, MakeEntity(tok)], seg.warnings))
    else if tok.bio == I && tok.tag != last.tag then
      Ok(Segmentation(rest + [last, MakeEntity(tok)], seg.warnings + [Warning(last, tok)]))
    else
      Err(InvalidSequence(last, tok))
  }

  /** A successful step keeps the finished entities, adds one entity unless
      the token continues the entity in progress, leaves last an entity that
      ends at the token and has its type, and adds a warning exactly for an
      `I` token of another type. */
  predicate ReduceOk(seg: Segmentation, tok: Token, next: Segmentation)
    requires |seg.entities| > 0
  {
    var n := |seg.entities|;
    var last := seg.entities[n - 1];
    var grows := tok.bio == I && tok.tag == last.tag;
    && |next.entities| == (if grows then n else n + 1)
    && next.entities[..n - 1] == seg.entities[..n - 1]
    && (!grows ==> next.entities[n - 1] == last)
    && next.entities[|next.entities| - 1].stop == tok.wordId + 1
    && next.entities[|next.entities| - 1].tag == tok.tag
    && next.warnings == seg.warnings + (if tok.bio == I && tok.tag != last.tag then [Warning(last, tok)] else [])
  }

  /** A step fails exactly on a fatal token, naming the entity in progress;
      otherwise it pops that entity and pushes one or two back as described
      by `ReduceOk`. */
  lemma {:induction false} ReduceSpec(seg: Segmentation, tok: Token)
    requires |seg.entities| > 0
    ensures Reduce(seg, tok).Err? <==> Fatal(tok)
    ensures Reduce(seg, tok).Err? ==> Reduce(seg, tok).error == InvalidSequence(seg.entities[|seg.entities| - 1], tok)
    ensures Reduce(seg, tok).Ok? ==> ReduceOk(seg, tok, Reduce(seg, tok).value)
  {
  }

  /** The fold over a non-empty token list, seeded with the first token's entity. */
  function Segment(toks: seq<Token>): (r: Result<Segmentation, Error>)
    requires |toks| > 0
    ensures r.Ok? ==> |r.value.entities| > 0
  {
    if |toks| == 1 then Ok(Segmentation([MakeEntity(toks[0])], []))
    else
      match Segment(toks[..|toks| - 1])
      case Err(e) => Err(e)
      case Ok(seg) => Reduce(seg, toks[|toks| - 1])
  }

  lemma {:induction false} SegmentStep(toks: seq<Token>, i: nat)
    requires 0 < i < |toks|
    ensures Segment(toks[..i + 1]) ==
      match Segment(toks[..i])
      case Err(e) => Err(e)
      case Ok(seg) => Reduce(seg, toks[i])
  {
    assert toks[..i + 1][..i] == toks[..i];
  }

  lemma {:induction false} SegmentErrSticks(toks: seq<Token>, i: nat)
    requires 0 < i <= |toks| && Segment(toks[..i]).Err?
    ensures Segment(toks) == Segment(toks[..i])
    decreases |toks|
  {
    if i < |toks| {
      var init := toks[..|toks| - 1];
      assert init[..i] == toks[..i];
      SegmentErrSticks(init, i);
    } else {
      assert toks[..i] == toks;
    }
  }

  /** `toks_to_entities`: the fold written as a loop over an accumulator. */
  method ToksToEntities(toks: seq<Token>) returns (r: Result<Segmentation, Error>)
    requires |toks| > 0
    ensures r == Segment(toks)
  {
    var entities := [MakeEntity(toks[0])];
    var warnings: seq<Warning> := [];
    assert toks[..1] == [toks[0]];
    for i := 1 to |toks|
      invariant Segment(toks[..i]) == Ok(Segmentation(entities, warnings))
    {
      SegmentStep(toks, i);
      var tok := toks[i];
      var last := entities[|entities| - 1];
      entities := entities[..|entities| - 1];
      if tok.bio == I && tok.tag == last.tag {
        entities := entities + [ExtendEntity(last, tok)];
      } else if tok.bio == B || (tok.bio == O && tok.tag == OTag) {
        entities := entities + [last, MakeEntity(tok)];
      } else if tok.bio == I && tok.tag != last.tag {
        warnings := warnings + [Warning(last, tok)];
        entities := entities + [last, MakeEntity(tok)];
      } else {
        SegmentErrSticks(toks, i + 1);
        return Err(InvalidSequence(last, tok));
      }
    }
    assert toks[..|toks|] == toks;
    return Ok(Segmentation(entities, warnings));
  }

  /** The only token the fold rejects: an `O` marker carrying an entity type. */
  predicate Fatal(tok: Token)
  {
    tok.bio == O && tok.tag != OTag
  }

  /** The fold fails exactly when some token after the first is an `O` marker
      with an entity type; the first token is never checked. */
  lemma {:induction false} SegmentFails(toks: seq<Token>)
    requires |toks| > 0
    ensures Segment(toks).Err? <==> exists i :: 1 <= i < |toks| && Fatal(toks[i])
  {
    if |toks| > 1 {
      var init := toks[..|toks| - 1];
      SegmentFails(init);
      assert forall i :: 1 <= i < |init| ==> init[i] == toks[i];
      if Segment(init).Err? {
        var i :| 1 <= i < |init| && Fatal(init[i]);
        assert Fatal(toks[i]);
      }
    }
  }

  /** Token `p` continues the entity before it: an `I` marker with the
      previous token's type. */
  predicate Continues(toks: seq<Token>, p: int)
  {
    0 < p < |toks| && toks[p].bio == I && toks[p].tag == toks[p - 1].tag
  }

  /** The entities tile word positions k .. k + n - 1, in order and without
      gap or overlap, each as long as its word list and none empty. */
  predicate Tiles(es: seq<Entity>, k: int, n: nat)
  {
    && |es| > 0
    && es[0].start == k
    && es[|es| - 1].stop == k + n
    && (forall j :: 0 <= j < |es| - 1 ==> es[j].stop == es[j + 1].start)
    && (forall j :: 0 <= j < |es| ==> 0 < |es[j].words| == es[j].stop - es[j].start)
  }

  /** Every entity begins at a token of the list that does not continue its
      predecessor, and takes that token's sentence. */
  predicate Begins(es: seq<Entity>, toks: seq<Token>, k: int)
  {
    forall j :: 0 <= j < |es| ==>
      k <= es[j].start < k + |toks| && !Continues(toks, es[j].start - k)
      && es[j].sentId == toks[es[j].start - k].sentId
  }

  /** Every token an entity covers carries the entity's type and the entity's
      word at that place, and every such token after the first continues its
      predecessor. */
  predicate Covers(es: seq<Entity>, toks: seq<Token>, k: int)
  {
    forall j :: 0 <= j < |es| ==> CoversEntity(es[j], toks, k)
  }

  predicate CoversEntity(e: Entity, toks: seq<Token>, k: int)
  {
    forall p :: e.start - k <= p < e.stop - k ==> CoveredAt(e, toks, k, p)
  }

  /** Token p lies under entity e: same type, the entity's word at that
      place, and continuing its predecessor unless it is the first. */
  predicate CoveredAt(e: Entity, toks: seq<Token>, k: int, p: int)
  {
    e.start - k <= p < |toks| && 0 <= p && p - (e.start - k) < |e.words|
    && toks[p].tag == e.tag && toks[p].word == e.words[p - (e.start - k)]
    && (p > e.start - k ==> Continues(toks, p))
  }

  /** The segmentation of tokens numbered from k: entities that tile the
      sentence, each starting where the tags say an entity starts and holding
      exactly the words and type of the tokens it covers. */
  predicate Partition(es: seq<Entity>, toks: seq<Token>, k: int)
  {
    |toks| > 0 && Tiles(es, k, |toks|) && Begins(es, toks, k) && Covers(es, toks, k)
  }

  /** Word ids that count k, k + 1, k + 2, ... */
  predicate ConsecutiveFrom(toks: seq<Token>, k: int)
  {
    forall i :: 0 <= i < |toks| ==> toks[i].wordId == k + i
  }

  /** What an entity covers stays covered when a token is appended. */
  lemma {:induction false} CoversEntityAppend(e: Entity, prefix: seq<Token>, tok: Token, k: int)
    requires CoversEntity(e, prefix, k)
    ensures CoversEntity(e, prefix + [tok], k)
  {
    var toks := prefix + [tok];
    forall p | e.start - k <= p < e.stop - k
      ensures CoveredAt(e, toks, k, p)
    {
      assert CoveredAt(e, prefix, k, p);
      assert toks[p] == prefix[p];
      if p > e.start - k {
        assert toks[p - 1] == prefix[p - 1];
      }
    }
  }

  lemma {:induction false} StartTiles(es: seq<Entity>, k: int, n: nat, tok: Token)
    requires Tiles(es, k, n) && tok.wordId == k + n
    ensures Tiles(es + [MakeEntity(tok)], k, n + 1)
  {
    assert forall j :: 0 <= j < |es| ==> (es + [MakeEntity(tok)])[j] == es[j];
  }

  lemma {:induction false} StartBegins(es: seq<Entity>, prefix: seq<Token>, tok: Token, k: int)
    requires Begins(es, prefix, k)
    requires tok.wordId == k + |prefix| && !Continues(prefix + [tok], |prefix|)
    ensures Begins(es + [MakeEntity(tok)], prefix + [tok], k)
  {
    var toks := prefix + [tok];
    var es' := es + [MakeEntity(tok)];
    forall j | 0 <= j < |es'|
      ensures k <= es'[j].start < k + |toks| && !Continues(toks, es'[j].start - k)
      ensures es'[j].sentId == toks[es'[j].start - k].sentId
    {
      if j < |es| {
        assert es'[j] == es[j];
        assert toks[es[j].start - k] == prefix[es[j].start - k];
        assert es[j].start - k > 0 ==> toks[es[j].start - k - 1] == prefix[es[j].start - k - 1];
      }
    }
  }

  lemma {:induction false} StartCovers(es: seq<Entity>, prefix: seq<Token>, tok: Token, k: int)
    requires Covers(es, prefix, k) && tok.wordId == k + |prefix|
    ensures Covers(es + [MakeEntity(tok)], prefix + [tok], k)
  {
    var toks := prefix + [tok];
    var es' := es + [MakeEntity(tok)];
    forall j | 0 <= j < |es'|
      ensures CoversEntity(es'[j], toks, k)
    {
      if j < |es| {
        assert es'[j] == es[j];
        CoversEntityAppend(es[j], prefix, tok, k);
      } else {
        assert toks[|prefix|] == tok;
      }
    }
  }

  /** Starting a new entity at the next token keeps the partition. */
  lemma {:induction false} StartKeepsPartition(prefix: seq<Token>, tok: Token, es: seq<Entity>, k: int)
    requires Partition(es, prefix, k)
    requires tok.wordId == k + |prefix| && !Continues(prefix + [tok], |prefix|)
    ensures Partition(es + [MakeEntity(tok)], prefix + [tok], k)
  {
    StartTiles(es, k, |prefix|, tok);
    StartBegins(es, prefix, tok, k);
    StartCovers(es, prefix, tok, k);
  }

  lemma {:induction false} ExtendTiles(es: seq<Entity>, k: int, n: nat, tok: Token)
    requires Tiles(es, k, n) && tok.wordId == k + n
    ensures Tiles(es[..|es| - 1] + [ExtendEntity(es[|es| - 1], tok)], k, n + 1)
  {
    var es' := es[..|es| - 1] + [ExtendEntity(es[|es| - 1], tok)];
    assert forall j :: 0 <= j < |es| - 1 ==> es'[j] == es[j];
  }

  lemma {:induction false} ExtendBegins(es: seq<Entity>, prefix: seq<Token>, tok: Token, k: int)
    requires |es| > 0 && Begins(es, prefix, k)
    ensures Begins(es[..|es| - 1] + [ExtendEntity(es[|es| - 1], tok)], prefix + [tok], k)
  {
    var toks := prefix + [tok];
    var es' := es[..|es| - 1] + [ExtendEntity(es[|es| - 1], tok)];
    forall j | 0 <= j < |es'|
      ensures k <= es'[j].start < k + |toks| && !Continues(toks, es'[j].start - k)
      ensures es'[j].sentId == toks[es'[j].start - k].sentId
    {
      assert es'[j].start == es[j].start && es'[j].sentId == es[j].sentId;
      assert toks[es[j].start - k] == prefix[es[j].start - k];
      assert es[j].start - k > 0 ==> toks[es[j].start - k - 1] == prefix[es[j].start - k - 1];
    }
  }

  lemma {:induction false} ExtendCoversLast(last: Entity, prefix: seq<Token>, tok: Token, k: int)
    requires CoversEntity(last, prefix, k) && last.stop == k + |prefix|
    requires k <= last.start < last.stop == last.start + |last.words|
    requires tok.wordId == k + |prefix| && tok.bio == I && tok.tag == last.tag
    ensures CoversEntity(ExtendEntity(last, tok), prefix + [tok], k)
  {
    var toks := prefix + [tok];
    var ext := ExtendEntity(last, tok);
    var P := |prefix|;
    var s := last.start - k;
    assert toks[P - 1] == prefix[P - 1] && toks[P] == tok;
    forall p | ext.start - k <= p < ext.stop - k
      ensures CoveredAt(ext, toks, k, p)
    {
      if p < P {
        assert CoveredAt(last, prefix, k, p);
        assert ext.words[p - s] == last.words[p - s];
        assert toks[p] == prefix[p];
        if p > s {
          assert toks[p - 1] == prefix[p - 1];
        }
      } else {
        assert CoveredAt(last, prefix, k, P - 1);
        assert ext.words[p - s] == tok.word;
      }
    }
  }

  lemma {:induction false} ExtendCovers(es: seq<Entity>, prefix: seq<Token>, tok: Token, k: int)
    requires Tiles(es, k, |prefix|) && Begins(es, prefix, k) && Covers(es, prefix, k)
    requires tok.wordId == k + |prefix| && tok.bio == I && tok.tag == es[|es| - 1].tag
    ensures Covers(es[..|es| - 1] + [ExtendEntity(es[|es| - 1], tok)], prefix + [tok], k)
  {
    var es' := es[..|es| - 1] + [ExtendEntity(es[|es| - 1], tok)];
    forall j | 0 <= j < |es'|
      ensures CoversEntity(es'[j], prefix + [tok], k)
    {
      if j < |es| - 1 {
        assert es'[j] == es[j];
        CoversEntityAppend(es[j], prefix, tok, k);
      } else {
        ExtendCoversLast(es[|es| - 1], prefix, tok, k);
      }
    }
  }

  /** Extending the entity in progress by the next token keeps the partition. */
  lemma {:induction false} ExtendKeepsPartition(prefix: seq<Token>, tok: Token, es: seq<Entity>, k: int)
    requires Partition(es, prefix, k)
    requires tok.wordId == k + |prefix| && tok.bio == I && tok.tag == es[|es| - 1].tag
    ensures Partition(es[..|es| - 1] + [ExtendEntity(es[|es| - 1], tok)], prefix + [tok], k)
  {
    ExtendTiles(es, k, |prefix|, tok);
    ExtendBegins(es, prefix, tok, k);
    ExtendCovers(es, prefix, tok, k);
  }

  lemma {:induction false} PartitionStep(toks: seq<Token>, seg: Segmentation, k: int)
    requires |toks| > 1 && ConsecutiveFrom(toks, k)
    requires Partition(seg.entities, toks[..|toks| - 1], k)
    requires Reduce(seg, toks[|toks| - 1]).Ok?
    ensures Partition(Reduce(seg, toks[|toks| - 1]).value.entities, toks, k)
  {
    var prefix := toks[..|toks| - 1];
    var tok := toks[|toks| - 1];
    var es := seg.entities;
    assert toks == prefix + [tok];
    var last := es[|es| - 1];
    assert last.start - k <= |prefix| - 1;
    assert CoversEntity(last, prefix, k);
    assert CoveredAt(last, prefix, k, |prefix| - 1);
    assert last.tag == prefix[|prefix| - 1].tag;
    if tok.bio == I && tok.tag == last.tag {
      ExtendKeepsPartition(prefix, tok, es, k);
    } else {
      assert es[..|es| - 1] + [last, MakeEntity(tok)] == es + [MakeEntity(tok)];
      StartKeepsPartition(prefix, tok, es, k);
    }
  }

  /** With word ids counting from k, the segmentation partitions the sentence. */
  lemma {:induction false} SegmentPartitions(toks: seq<Token>, k: int)
    requires |toks| > 0 && ConsecutiveFrom(toks, k)
    requires Segment(toks).Ok?
    ensures Partition(Segment(toks).value.entities, toks, k)
  {
    if |toks| > 1 {
      var init := toks[..|toks| - 1];
      SegmentPartitions(init, k);
      PartitionStep(toks, Segment(init).value, k);
    }
  }

  /** The last entity ends at the last token and has its type. */
  lemma {:induction false} SegmentLast(toks: seq<Token>)
    requires |toks| > 0 && Segment(toks).Ok?
    ensures var es := Segment(toks).value.entities;
      es[|es| - 1].tag == toks[|toks| - 1].tag && es[|es| - 1].stop == toks[|toks| - 1].wordId + 1
  {
    if |toks| > 1 { SegmentLast(toks[..|toks| - 1]); }
  }

  /** The words of a list of entities, one entity after another. */
  function Spelling(es: seq<Entity>): seq<string>
  {
    if |es| == 0 then [] else Spelling(es[..|es| - 1]) + es[|es| - 1].words
  }

  /** The words of a list of tokens. */
  function Words(toks: seq<Token>): (r: seq<string>)
    ensures |r| == |toks| && forall i :: 0 <= i < |toks| ==> r[i] == toks[i].word
  {
    seq(|toks|, i requires 0 <= i < |toks| => toks[i].word)
  }

  lemma {:induction false} SpellingPush(es: seq<Entity>, e: Entity)
    ensures Spelling(es + [e]) == Spelling(es) + e.words
  {
    assert (es + [e])[..|es|] == es;
  }

  lemma {:induction false} SegmentSnoc(toks: seq<Token>, tok: Token)
    requires |toks| > 0
    ensures Segment(toks + [tok]) ==
      match Segment(toks)
      case Err(e) => Err(e)
      case Ok(seg) => Reduce(seg, tok)
  {
    assert (toks + [tok])[..|toks|] == toks;
  }

  /** Spelling distributes over concatenation. */
  lemma {:induction false} SpellingConcat(a: seq<Entity>, b: seq<Entity>)
    ensures Spelling(a + b) == Spelling(a) + Spelling(b)
    decreases |b|
  {
    if |b| == 0 {
      assert a + b == a;
    } else {
      var init := b[..|b| - 1];
      assert a + b == (a + init) + [b[|b| - 1]];
      SpellingPush(a + init, b[|b| - 1]);
      SpellingPush(init, b[|b| - 1]);
      assert b == init + [b[|b| - 1]];
      SpellingConcat(a, init);
    }
  }

  lemma {:induction false} WordsConcat(a: seq<Token>, b: seq<Token>)
    ensures Words(a + b) == Words(a) + Words(b)
  {
  }

  /** One step of the fold appends the token's word to the spelling. */
  lemma {:induction false} ReduceSpelling(seg: Segmentation, tok: Token)
    requires |seg.entities| > 0 && Reduce(seg, tok).Ok?
    ensures Spelling(Reduce(seg, tok).value.entities) == Spelling(seg.entities) + [tok.word]
  {
    var es := seg.entities;
    var rest := es[..|es| - 1];
    var last := es[|es| - 1];
    assert es == rest + [last];
    SpellingPush(rest, last);
    if tok.bio == I && tok.tag == last.tag {
      SpellingPush(rest, ExtendEntity(last, tok));
    } else {
      assert rest + [last, MakeEntity(tok)] == es + [MakeEntity(tok)];
      SpellingPush(es, MakeEntity(tok));
    }
  }

  /** The segmenter neither drops, duplicates nor reorders a word: the
      entities spell out the sentence. */
  lemma {:induction false} SegmentWords(toks: seq<Token>)
    requires |toks| > 0 && Segment(toks).Ok?
    ensures Spelling(Segment(toks).value.entities) == Words(toks)
  {
    if |toks| == 1 {
      assert Spelling([MakeEntity(toks[0])]) == Spelling([]) + [toks[0].word];
    } else {
      var init := toks[..|toks| - 1];
      var tok := toks[|toks| - 1];
      assert toks == init + [tok];
      SegmentSnoc(init, tok);
      calc {
        Spelling(Segment(toks).value.entities);
        Spelling(Reduce(Segment(init).value, tok).value.entities);
        { ReduceSpelling(Segment(init).value, tok); }
        Spelling(Segment(init).value.entities) + [tok.word];
        { SegmentWords(init); }
        Words(init) + [tok.word];
        { WordsConcat(init, [tok]); }
        Words(toks);
      }
    }
  }

  /** Token `p` is an `I` marker whose type differs from the token before it. */
  predicate Mismatch(toks: seq<Token>, p: int)
  {
    0 < p < |toks| && toks[p].bio == I && toks[p].tag != toks[p - 1].tag
  }

  /** The tokens that draw a warning, in order. */
  function Mismatched(toks: seq<Token>): seq<Token>
  {
    if |toks| <= 1 then []
    else Mismatched(toks[..|toks| - 1]) + (if Mismatch(toks, |toks| - 1) then [toks[|toks| - 1]] else [])
  }

  /** The tokens the warnings are about. */
  function WarnedTokens(ws: seq<Warning>): (r: seq<Token>)
    ensures |r| == |ws| && forall i :: 0 <= i < |ws| ==> r[i] == ws[i].tok
  {
    seq(|ws|, i requires 0 <= i < |ws| => ws[i].tok)
  }

  /** A warning is raised exactly for each `I` token whose type differs from
      the token before it, in sentence order, and each warning names the
      entity that token interrupts. */
  lemma {:induction false} SegmentWarnings(toks: seq<Token>)
    requires |toks| > 0 && Segment(toks).Ok?
    ensures WarnedTokens(Segment(toks).value.warnings) == Mismatched(toks)
    ensures forall w :: w in Segment(toks).value.warnings ==> w.last.tag != w.tok.tag && w.tok.bio == I
  {
    if |toks| > 1 {
      var init := toks[..|toks| - 1];
      SegmentWarnings(init);
      SegmentLast(init);
      var tok := toks[|toks| - 1];
      assert init[|init| - 1] == toks[|toks| - 2];
      assert Mismatched(toks) == Mismatched(init) + (if Mismatch(toks, |toks| - 1) then [tok] else []);
    }
  }

  /** An entity as the segmenter builds it: at least one word, ending after
      its last word, and a lone word when it is outside every type. */
  predicate WellFormed(e: Entity)
  {
    Shaped(e) && e.stop == e.start + |e.words|
  }

  /** The part of being well formed that does not depend on word ids: at
      least one word, and a lone word when outside every type. */
  predicate Shaped(e: Entity)
  {
    0 < |e.words| && (e.tag == OTag ==> |e.words| == 1)
  }

  /** Whatever the word ids, every entity the segmenter returns from
      well-formed tokens has at least one word, and exactly one when it is
      outside every type: only an `I` token extends, and it is typed. */
  lemma {:induction false} SegmentShaped(toks: seq<Token>)
    requires |toks| > 0 && Segment(toks).Ok?
    requires forall i :: 0 <= i < |toks| ==> Tags.Valid(toks[i])
    ensures forall e :: e in Segment(toks).value.entities ==> Shaped(e)
  {
    if |toks| > 1 {
      var n := |toks| - 1;
      var init := toks[..n];
      assert forall i :: 0 <= i < n ==> init[i] == toks[i];
      SegmentShaped(init);
      ReduceShaped(Segment(init).value, toks[n]);
    }
  }

  /** A step with a well-formed token keeps every entity shaped. */
  lemma {:induction false} ReduceShaped(seg: Segmentation, tok: Token)
    requires |seg.entities| > 0 && Tags.Valid(tok) && Reduce(seg, tok).Ok?
    requires forall e :: e in seg.entities ==> Shaped(e)
    ensures forall e :: e in Reduce(seg, tok).value.entities ==> Shaped(e)
  {
    var es := seg.entities;
    var last := es[|es| - 1];
    assert last in es;
    if tok.bio == I && tok.tag == last.tag {
      ContinuedIsTyped(tok);
      assert Reduce(seg, tok).value.entities == es[..|es| - 1] + [ExtendEntity(last, tok)];
    } else {
      assert Reduce(seg, tok).value.entities == es + [MakeEntity(tok)];
    }
  }

  /** With well-formed tokens and word ids counting from k, every entity
      the segmenter returns is well formed. */
  lemma {:induction false} SegmentWellFormed(toks: seq<Token>, k: int)
    requires |toks| > 0 && ConsecutiveFrom(toks, k) && Segment(toks).Ok?
    requires forall i :: 0 <= i < |toks| ==> Tags.Valid(toks[i])
    ensures forall e :: e in Segment(toks).value.entities ==> WellFormed(e)
  {
    var es := Segment(toks).value.entities;
    SegmentPartitions(toks, k);
    forall j | 0 <= j < |es|
      ensures WellFormed(es[j])
    {
      var e := es[j];
      assert CoversEntity(e, toks, k);
      if |e.words| > 1 {
        var p := e.start - k + 1;
        assert CoveredAt(e, toks, k, p);
        ContinuedIsTyped(toks[p]);
        assert e.tag != OTag;
      }
    }
  }

  /** A well-formed `I` token has a type. */
  lemma {:induction false} ContinuedIsTyped(tok: Token)
    requires Tags.Valid(tok) && tok.bio == I
    ensures tok.tag != OTag
  {
  }

  /** `entity_to_tokens`: the tokens of an entity, `B` then `I` markers, or
      `O` markers when it is outside every type. */
  function EntityToTokens(e: Entity): (r: seq<Token>)
    ensures |r| == |e.words|
    ensures forall i :: 0 <= i < |r| ==>
      r[i].sentId == e.sentId && r[i].wordId == e.start + i && r[i].word == e.words[i] && r[i].tag == e.tag
    ensures forall i :: 0 <= i < |r| ==>
      r[i].bio == (if e.tag == OTag then O else if i == 0 then B else I)
  {
    seq(|e.words|, i requires 0 <= i < |e.words| =>
      Token(e.sentId, e.start + i, e.words[i], if e.tag == OTag then O else if i == 0 then B else I, e.tag))
  }

  /** `entity_to_conll`: the CoNLL lines of an entity's tokens. */
  function EntityToConll(e: Entity): (r: seq<string>)
    ensures |r| == |e.words|
  {
    var toks := EntityToTokens(e);
    seq(|toks|, i requires 0 <= i < |toks| => Tags.TokenToConll(toks[i]))
  }

  /** An entity of a known type (or `O`) whose words have no tab prints to
      lines that parse back, one by one, into the entity's tokens. */
  lemma {:induction false} EntityConllRoundTrip(e: Entity)
    requires e.tag == OTag || e.tag in Tags.WnutTags
    requires forall i :: 0 <= i < |e.words| ==> '\t' !in e.words[i]
    ensures forall i :: 0 <= i < |e.words| ==>
      var fields := Text.Split(EntityToConll(e)[i], '\t');
      |fields| == 2 && Tags.MakeTok(fields[0], fields[1], e.sentId, e.start + i) == Ok(EntityToTokens(e)[i])
  {
    var toks := EntityToTokens(e);
    forall i | 0 <= i < |e.words|
      ensures var fields := Text.Split(EntityToConll(e)[i], '\t');
        |fields| == 2 && Tags.MakeTok(fields[0], fields[1], e.sentId, e.start + i) == Ok(toks[i])
    {
      assert Tags.Valid(toks[i]);
      Tags.ValidTokenRoundTrip(toks[i]);
    }
  }

  /** The tokens of a list of entities, one entity after another. */
  function Retokenize(es: seq<Entity>): (r: seq<Token>)
    ensures |r| == |Spelling(es)|
  {
    if |es| == 0 then [] else Retokenize(es[..|es| - 1]) + EntityToTokens(es[|es| - 1])
  }

  /** The first m words of an entity, as the segmenter holds it midway. */
  function Partial(e: Entity, m: nat): Entity
    requires m <= |e.words|
  {
    Entity(e.words[..m], e.sentId, e.start, e.start + m, e.tag)
  }

  /** The first token of a well-formed entity starts an entity of its own. */
  lemma {:induction false} FirstToken(e: Entity)
    requires WellFormed(e)
    ensures EntityToTokens(e)[..1] == [EntityToTokens(e)[0]]
    ensures var tok := EntityToTokens(e)[0];
      (tok.bio == B || (tok.bio == O && tok.tag == OTag)) && Partial(e, 1) == MakeEntity(tok)
  {
    assert e.words[..1] == [e.words[0]];
  }

  lemma {:induction false} ReduceStarts(es: seq<Entity>, tok: Token)
    requires |es| > 0 && (tok.bio == B || (tok.bio == O && tok.tag == OTag))
    ensures Reduce(Segmentation(es, []), tok) == Ok(Segmentation(es + [MakeEntity(tok)], []))
  {
    assert es[..|es| - 1] + [es[|es| - 1], MakeEntity(tok)] == es + [MakeEntity(tok)];
  }

  /** The first token of an entity closes the entity before it. */
  lemma {:induction false} SegmentNextEntity(prefix: seq<Token>, es: seq<Entity>, e: Entity)
    requires |prefix| > 0 && Segment(prefix) == Ok(Segmentation(es, []))
    requires WellFormed(e)
    ensures Segment(prefix + EntityToTokens(e)[..1]) == Ok(Segmentation(es + [Partial(e, 1)], []))
  {
    var tok := EntityToTokens(e)[0];
    FirstToken(e);
    SegmentSnoc(prefix, tok);
    ReduceStarts(es, tok);
  }

  lemma {:induction false} ReduceExtends(es: seq<Entity>, last: Entity, tok: Token)
    requires tok.bio == I && tok.tag == last.tag
    ensures Reduce(Segmentation(es + [last], []), tok) == Ok(Segmentation(es + [ExtendEntity(last, tok)], []))
  {
    assert (es + [last])[..|es|] == es;
  }

  lemma {:induction false} PartialGrows(e: Entity, m: nat)
    requires 1 < m <= |e.words|
    ensures ExtendEntity(Partial(e, m - 1), EntityToTokens(e)[m - 1]) == Partial(e, m)
  {
    assert e.words[..m] == e.words[..m - 1] + [e.words[m - 1]];
  }

  /** A later token of an entity extends it. */
  lemma {:induction false} SegmentNextWord(prefix: seq<Token>, es: seq<Entity>, e: Entity, m: nat)
    requires WellFormed(e) && 1 < m <= |e.words|
    requires |prefix + EntityToTokens(e)[..m - 1]| > 0
    requires Segment(prefix + EntityToTokens(e)[..m - 1]) == Ok(Segmentation(es + [Partial(e, m - 1)], []))
    ensures Segment(prefix + EntityToTokens(e)[..m]) == Ok(Segmentation(es + [Partial(e, m)], []))
  {
    var toks := EntityToTokens(e);
    var before := prefix + toks[..m - 1];
    var tok := toks[m - 1];
    assert toks[..m] == toks[..m - 1] + [tok];
    assert prefix + toks[..m] == before + [tok];
    SegmentSnoc(before, tok);
    ReduceExtends(es, Partial(e, m - 1), tok);
    PartialGrows(e, m);
  }

  /** After the tokens of `es` (none, or a segmentation into exactly `es`),
      the first m tokens of one more well-formed entity segment into `es`
      followed by the first m words of that entity. */
  lemma {:induction false} SegmentEntityWords(prefix: seq<Token>, es: seq<Entity>, e: Entity, m: nat)
    requires (prefix == [] && es == []) || (|prefix| > 0 && Segment(prefix) == Ok(Segmentation(es, [])))
    requires WellFormed(e) && 1 <= m <= |e.words|
    ensures |prefix + EntityToTokens(e)[..m]| > 0
    ensures Segment(prefix + EntityToTokens(e)[..m]) == Ok(Segmentation(es + [Partial(e, m)], []))
    decreases m
  {
    if m > 1 {
      SegmentEntityWords(prefix, es, e, m - 1);
      SegmentNextWord(prefix, es, e, m);
    } else if prefix == [] {
      var tok := EntityToTokens(e)[0];
      FirstToken(e);
      assert prefix + EntityToTokens(e)[..1] == [tok];
      assert Segment([tok]) == Ok(Segmentation([MakeEntity(tok)], []));
      assert es + [Partial(e, 1)] == [MakeEntity(tok)];
    } else {
      SegmentNextEntity(prefix, es, e);
    }
  }

  /** The whole of a well-formed entity, as the segmenter holds it once its
      last word is read. */
  lemma {:induction false} RetokenizeSnoc(init: seq<Entity>, last: Entity)
    requires WellFormed(last)
    ensures Partial(last, |last.words|) == last
    ensures Retokenize(init) + EntityToTokens(last)[..|last.words|] == Retokenize(init + [last])
  {
    assert last.words[..|last.words|] == last.words;
    assert EntityToTokens(last)[..|last.words|] == EntityToTokens(last);
    assert (init + [last])[..|init|] == init;
  }

  /** `toks_to_entities` inverts `entity_to_tokens`: the tokens of a list of
      well-formed entities segment back into exactly those entities, with no
      warning. */
  lemma {:induction false} RetokenizeRoundTrip(es: seq<Entity>)
    requires |es| > 0 && forall j :: 0 <= j < |es| ==> WellFormed(es[j])
    ensures |Retokenize(es)| > 0
    ensures Segment(Retokenize(es)) == Ok(Segmentation(es, []))
  {
    var init := es[..|es| - 1];
    var last := es[|es| - 1];
    assert init + [last] == es;
    if |init| > 0 {
      forall j | 0 <= j < |init| ensures WellFormed(init[j]) {
        assert init[j] == es[j];
      }
      RetokenizeRoundTrip(init);
    }
    RoundTripStep(init, last);
  }

  /** One more well-formed entity keeps the round trip. */
  lemma {:induction false} RoundTripStep(init: seq<Entity>, last: Entity)
    requires WellFormed(last)
    requires init == [] || (|Retokenize(init)| > 0 && Segment(Retokenize(init)) == Ok(Segmentation(init, [])))
    ensures |Retokenize(init + [last])| > 0
    ensures Segment(Retokenize(init + [last])) == Ok(Segmentation(init + [last], []))
  {
    if init == [] {
      assert Retokenize(init) == [];
    }
    SegmentEntityWords(Retokenize(init), init, last, |last.words|);
    RetokenizeSnoc(init, last);
  }

  /** Segmenting is idempotent on valid sentences: re-tokenizing its entities
      and segmenting again gives the same entities and no warning. */
  lemma {:induction false} SegmentIdempotent(toks: seq<Token>, k: int)
    requires |toks| > 0 && ConsecutiveFrom(toks, k) && Segment(toks).Ok?
    requires forall i :: 0 <= i < |toks| ==> Tags.Valid(toks[i])
    ensures var es := Segment(toks).value.entities;
      |Retokenize(es)| > 0 && Segment(Retokenize(es)) == Ok(Segmentation(es, []))
  {
    SegmentWellFormed(toks, k);
    RetokenizeRoundTrip(Segment(toks).value.entities);
  }

  /** Without consecutive word ids the round trip fails: segmenting a
      sentence whose word ids skip 1 gives an entity ending at 3, but its
      tokens are renumbered without the gap and segment into one ending at 2. */
  lemma {:induction false} GappedRoundTrip()
    ensures var toks := [Token(0, 0, "a", B, "person"), Token(0, 2, "c", I, "person")];
      var es := Segment(toks).value.entities;
      && es == [Entity(["a", "c"], 0, 0, 3, "person")]
      && Segment(Retokenize(es)) == Ok(Segmentation([Entity(["a", "c"], 0, 0, 2, "person")], []))
  {
    var toks := [Token(0, 0, "a", B, "person"), Token(0, 2, "c", I, "person")];
    var none: seq<Entity> := [];
    var e := Entity(["a", "c"], 0, 0, 3, "person");
    var first := MakeEntity(toks[0]);
    assert Segment([toks[0]]) == Ok(Segmentation([first], []));
    assert [first] == none + [first];
    assert toks == [toks[0]] + [toks[1]];
    SegmentSnoc([toks[0]], toks[1]);
    ReduceExtends(none, first, toks[1]);
    assert ExtendEntity(first, toks[1]) == e;
    assert none + [ExtendEntity(first, toks[1])] == [e];
    assert Segment(toks) == Ok(Segmentation([e], []));
    var back := Retokenize([e]);
    var e' := Entity(["a", "c"], 0, 0, 2, "person");
    assert back == EntityToTokens(e);
    assert back == [Token(0, 0, "a", B, "person"), Token(0, 1, "c", I, "person")];
    var first' := MakeEntity(back[0]);
    assert Segment([back[0]]) == Ok(Segmentation([first'], []));
    assert [first'] == none + [first'];
    assert back == [back[0]] + [back[1]];
    SegmentSnoc([back[0]], back[1]);
    ReduceExtends(none, first', back[1]);
    assert ExtendEntity(first', back[1]) == e';
    assert none + [ExtendEntity(first', back[1])] == [e'];
  }

  /** Entities that begin at strictly increasing word ids. */
  predicate StartsIncrease(es: seq<Entity>)
  {
    forall i, j :: 0 <= i < j < |es| ==> es[i].start < es[j].start
  }

  /** Entities of sentence `s` that begin at strictly increasing word ids,
      none after `bound`. */
  predicate OrderedIn(es: seq<Entity>, s: int, bound: int)
  {
    StartsIncrease(es) && forall i :: 0 <= i < |es| ==> es[i].sentId == s && es[i].start <= bound
  }

  /** One step keeps the entities ordered when the token belongs to the same
      sentence and comes after every entity's start. */
  lemma {:induction false} ReduceOrdered(seg: Segmentation, tok: Token, s: int, bound: int)
    requires |seg.entities| > 0 && OrderedIn(seg.entities, s, bound)
    requires tok.sentId == s && bound < tok.wordId && Reduce(seg, tok).Ok?
    ensures OrderedIn(Reduce(seg, tok).value.entities, s, tok.wordId)
  {
    var es := seg.entities;
    var n := |es| - 1;
    var last := es[n];
    var next := Reduce(seg, tok).value.entities;
    if tok.bio == I && tok.tag == last.tag {
      assert next == es[..n] + [ExtendEntity(last, tok)];
      assert forall i :: 0 <= i < |es| ==> next[i].start == es[i].start && next[i].sentId == es[i].sentId;
    } else {
      assert next == es + [MakeEntity(tok)];
    }
  }

  /** Over the tokens of one sentence with strictly increasing word ids, the
      entities all belong to that sentence and begin at strictly increasing
      word ids: no entity is found twice. */
  lemma {:induction false} SegmentOrdered(toks: seq<Token>)
    requires |toks| > 0 && Segment(toks).Ok?
    requires forall w :: 0 <= w < |toks| ==> toks[w].sentId == toks[0].sentId
    requires forall v, w :: 0 <= v < w < |toks| ==> toks[v].wordId < toks[w].wordId
    ensures OrderedIn(Segment(toks).value.entities, toks[0].sentId, toks[|toks| - 1].wordId)
  {
    if |toks| > 1 {
      var n := |toks| - 1;
      var init := toks[..n];
      assert forall w :: 0 <= w < n ==> init[w] == toks[w];
      SegmentOrdered(init);
      ReduceOrdered(Segment(init).value, toks[n], toks[0].sentId, init[n - 1].wordId);
    }
  }
}
