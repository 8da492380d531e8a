/** The records the scorer passes between its stages: tokens, entities,
    the non-fatal warning of the segmenter and the errors that abort a run. */
module Records {

  /** The outcome of a stage that may raise. */
  datatype Result<+T, +E> = Ok(value: T) | Err(error: E)

  /** A value that may be absent. */
  datatype Option<+T> = None | Some(value: T)

  /** The BIO marker of a tag field. */
  datatype Bio = B | I | O

  /** The tag of an untagged token, and of the entity it forms. */
  const OTag: string := "O"

  /** One word's annotation by one source (gold or a system column). */
  datatype Token = Token(sentId: int, wordId: int, word: string, bio: Bio, tag: string)

  /** A run of words of one sentence that share a tag; `stop` is exclusive. */
  datatype Entity = Entity(words: seq<string>, sentId: int, start: int, stop: int, tag: string)

  /** "Invalid tag sequence": an I token whose tag differs from the entity in progress. */
  datatype Warning = Warning(last: Entity, tok: Token)

  datatype Error =
      /** A tag field with no hyphen fails the two-way unpack of its split. */
    | MissingHyphen(bioTag: string)
      /** A BIO marker or an entity type outside the closed vocabulary. */
    | InvalidTag(word: string, bioTag: string, sentId: int, wordId: int)
      /** Any tag error of a line, reported for the whole line. */
    | InvalidLine(line: string, sentId: int, wordId: int)
      /** The fatal branch of the segmenter. */
    | InvalidSequence(last: Entity, tok: Token)
      /** A source column the report looks up is absent (0 is gold, 1 is sys_1). */
    | MissingSource(column: nat)
}
