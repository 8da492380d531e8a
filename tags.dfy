/** Tag fields: `make_tok` parses one into a token and `token_to_conll`
    prints a token back as a word and a tag field. */
module Tags {
  import opened Records
  import Text

  /** The accepted BIO markers. */
  const WnutBio: seq<string> := ["B", "I", "O"]

  /** The closed vocabulary of entity types. */
  const WnutTags: seq<string> := ["corporation", "creative-work", "group", "location", "person", "product"]

  function BioOf(s: string): Bio
    requires s in WnutBio
  {
    if s == "B" then B else if s == "I" then I else O
  }

  function BioText(b: Bio): string
  {
    match b
    case B => "B"
    case I => "I"
    case O => "O"
  }

  /** The tag field of a token: `O` for an untagged token, `<bio>-<tag>` otherwise. */
  function TagField(tok: Token): (r: string)
    ensures r == OTag <==> tok.tag == OTag
    ensures tok.tag != OTag ==> |r| == |tok.tag| + 2 && r[0] == BioText(tok.bio)[0] && r[1] == '-' && r[2..] == tok.tag
  {
    if tok.tag == OTag then tok.tag else BioText(tok.bio) + "-" + tok.tag
  }

  /** What `make_tok` can produce: untagged tokens are marked `O`, and every
      other tag is one of the vocabulary. */
  predicate Valid(tok: Token)
  {
    (tok.tag == OTag ==> tok.bio == O) && (tok.tag == OTag || tok.tag in WnutTags)
  }

  /** The tag fields `make_tok` accepts, stated without splitting:
      `O`, or a BIO letter, a hyphen and a vocabulary type. */
  predicate ValidBioTag(s: string)
  {
    s == OTag || (|s| >= 2 && s[..2] in ["B-", "I-", "O-"] && s[2..] in WnutTags)
  }

  /** `make_tok`: `O` is the untagged token; any other field is split on its
      first hyphen into a BIO marker and a type, both of which must be known. */
  function MakeTok(word: string, bioTag: string, sentId: int, wordId: int): (r: Result<Token, Error>)
    ensures r.Ok? ==> r.value.word == word && r.value.sentId == sentId && r.value.wordId == wordId
    ensures r.Ok? ==> Valid(r.value) && TagField(r.value) == bioTag
    ensures r.Err? ==> r.error == if '-' in bioTag then InvalidTag(word, bioTag, sentId, wordId)
                                  else MissingHyphen(bioTag)
  {
    if bioTag == OTag then Ok(Token(sentId, wordId, word, O, OTag))
    else
      var parts := Text.SplitOnce(bioTag, '-');
      if |parts| != 2 then Err(MissingHyphen(bioTag))
      else if parts[0] !in WnutBio || parts[1] !in WnutTags then Err(InvalidTag(word, bioTag, sentId, wordId))
      else Ok(Token(sentId, wordId, word, BioOf(parts[0]), parts[1]))
  }

  /** `token_to_conll`: the word and the tag field, separated by a tab. For a
      well-formed token whose word has no tab, the line splits on tabs into
      exactly those two fields. */
  function TokenToConll(tok: Token): (r: string)
    ensures Valid(tok) && '\t' !in tok.word ==> Text.Split(r, '\t') == [tok.word, TagField(tok)]
  {
    var r := tok.word + "\t" + TagField(tok);
    if Valid(tok) && '\t' !in tok.word then
      ValidTagField(tok);
      NoTabInValidField(TagField(tok));
      assert Text.Join([tok.word, TagField(tok)], '\t') == r;
      Text.SplitJoin([tok.word, TagField(tok)], '\t');
      r
    else r
  }

  /** `make_tok` succeeds exactly on `O` and on `B-`, `I-` or `O-` followed by a
      vocabulary type; everything else, a field without hyphen included, fails. */
  lemma {:induction false} MakeTokAccepts(word: string, bioTag: string, sentId: int, wordId: int)
    ensures MakeTok(word, bioTag, sentId, wordId).Ok? <==> ValidBioTag(bioTag)
  {
    if ValidBioTag(bioTag) { ValidFieldParses(word, bioTag, sentId, wordId); }
    if MakeTok(word, bioTag, sentId, wordId).Ok? { ParsedFieldIsValid(word, bioTag, sentId, wordId); }
  }

  lemma {:induction false} ValidFieldParses(word: string, bioTag: string, sentId: int, wordId: int)
    requires ValidBioTag(bioTag)
    ensures MakeTok(word, bioTag, sentId, wordId).Ok?
  {
    if bioTag != OTag {
      assert bioTag[1] == '-' && bioTag[0] != '-';
      var i := Text.IndexOf(bioTag, '-');
      assert i == 1;
      var parts := Text.SplitOnce(bioTag, '-');
      assert parts == [bioTag[..1], bioTag[2..]];
      var b := bioTag[..1];
      assert b == [bioTag[0]];
      assert bioTag[0] == 'B' || bioTag[0] == 'I' || bioTag[0] == 'O';
      assert b in WnutBio;
    }
  }

  lemma {:induction false} ParsedFieldIsValid(word: string, bioTag: string, sentId: int, wordId: int)
    requires MakeTok(word, bioTag, sentId, wordId).Ok?
    ensures ValidBioTag(bioTag)
  {
    if bioTag != OTag {
      var parts := Text.SplitOnce(bioTag, '-');
      assert |parts| == 2 && parts[0] in WnutBio && parts[1] in WnutTags;
      var b := parts[0];
      assert |b| == 1;
      assert bioTag == b + "-" + parts[1];
      assert bioTag[..2] == b + "-";
      assert bioTag[2..] == parts[1];
      if b == "B" { assert b + "-" == "B-"; }
      else if b == "I" { assert b + "-" == "I-"; }
      else { assert b == "O"; assert b + "-" == "O-"; }
    }
  }

  /** No accepted tag field contains a tab. */
  lemma {:induction false} NoTabInValidField(s: string)
    requires ValidBioTag(s)
    ensures '\t' !in s
  {
    if s != OTag {
      assert s == s[..2] + s[2..];
      assert '\t' !in s[..2];
      assert forall t :: t in WnutTags ==> '\t' !in t;
    }
  }

  /** Printing a parsed token with `token_to_conll`, splitting the line on its
      tab and parsing the two fields again gives back the same token. */
  lemma {:induction false} TokenRoundTrip(word: string, bioTag: string, sentId: int, wordId: int)
    requires '\t' !in word
    requires MakeTok(word, bioTag, sentId, wordId).Ok?
    ensures var tok := MakeTok(word, bioTag, sentId, wordId).value;
            var fields := Text.Split(TokenToConll(tok), '\t');
            |fields| == 2 && MakeTok(fields[0], fields[1], sentId, wordId) == Ok(tok)
  {
    var tok := MakeTok(word, bioTag, sentId, wordId).value;
    MakeTokAccepts(word, bioTag, sentId, wordId);
    NoTabInValidField(bioTag);
    assert Text.Join([word, bioTag], '\t') == TokenToConll(tok);
    Text.SplitJoin([word, bioTag], '\t');
  }

  /** Every well-formed token prints to an accepted tag field. */
  lemma {:induction false} ValidTagField(tok: Token)
    requires Valid(tok)
    ensures ValidBioTag(TagField(tok))
  {
    if tok.tag != OTag {
      var f := TagField(tok);
      assert f[..2] == BioText(tok.bio) + "-";
      assert f[2..] == tok.tag;
      match tok.bio
      case B => assert f[..2] == "B-";
      case I => assert f[..2] == "I-";
      case O => assert f[..2] == "O-";
    }
  }

  /** The tag field determines the marker and the type of a well-formed token. */
  lemma {:induction false} TagFieldInjective(a: Token, b: Token)
    requires Valid(a) && Valid(b) && TagField(a) == TagField(b)
    ensures a.bio == b.bio && a.tag == b.tag
  {
    var f := TagField(a);
    if a.tag != OTag && b.tag != OTag {
      assert f[0] == BioText(a.bio)[0] == BioText(b.bio)[0];
      assert f[2..] == a.tag;
      assert f[2..] == b.tag;
    }
  }

  /** Printing any well-formed token whose word has no tab and parsing the
      two fields of the line gives back the token. */
  lemma {:induction false} ValidTokenRoundTrip(tok: Token)
    requires Valid(tok) && '\t' !in tok.word
    ensures var fields := Text.Split(TokenToConll(tok), '\t');
            |fields| == 2 && MakeTok(fields[0], fields[1], tok.sentId, tok.wordId) == Ok(tok)
  {
    ValidTagField(tok);
    MakeTokAccepts(tok.word, TagField(tok), tok.sentId, tok.wordId);
    var parsed := MakeTok(tok.word, TagField(tok), tok.sentId, tok.wordId).value;
    TagFieldInjective(parsed, tok);
    assert parsed == tok;
    TokenRoundTrip(tok.word, TagField(tok), tok.sentId, tok.wordId);
  }
}
