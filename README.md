# WNUT'17 NER scorer in Dafny

This project models the core of `wnuteval.py`, the WNUT'17 variant of the
CoNLL-2000 `conlleval` scorer for named-entity recognition, and proves
properties of the model. The scorer reads a CoNLL-style document, one word
per line with a tab-separated gold tag column and one column per system, and
blank lines between sentences. It then works in four stages:

- **Tag parsing** (`tags.dfy`, module `Tags`). `make_tok` turns a field such
  as `B-person` or `O` into a token, and `token_to_conll` prints one back.
- **Grouping** (`sentences.dfy`, module `Sentences`). `get_sents` splits the
  stripped lines into sentences at blank lines. `line_to_toks`,
  `sent_to_toks` and `doc_to_tokses` collect the tokens into one bucket per
  source column; column 0 is `gold` and column i is `sys_i`.
- **Segmentation** (`segmenter.dfy`, module `Segmenter`). `toks_to_entities`
  is a left fold over a sentence's tokens. Each step extends the entity in
  progress or starts a new one. `entity_to_tokens` is its inverse.
- **Scoring** (`scoring.dfy`, module `Scoring`; `evaluation.dfy`, module
  `Evaluation`). The set functions give true/false positives and
  negatives. `calc_results` gives precision, recall and F1. `fmt_results`
  chooses which results it reports.

Shared records are in `records.dfy` (module `Records`). String helpers that
stand in for Python's `str.strip`, `str.split` and string ordering are in
`text.dfy` (module `Text`). `flatten` is in `lists.dfy` (module `Lists`).

The code works by updating state step by step in four places, and these
are Dafny methods with loops proved against a specification function:
`get_sents` (`Sentences.GetSents`), `sent_to_toks` (`Sentences.SentToToks`,
with `Sentences.AppendColumns` for the bucket appends), `doc_to_tokses`
(`Sentences.DocToTokses`) and the reducer of `toks_to_entities`
(`Segmenter.ToksToEntities`). Everything else is written as functions and
lemmas.

A few modelling choices:
- The `defaultdict` keyed by `gold` and `sys_i` is a sequence indexed by
  column.
- A Python exception is the `Err` case of a `Result`.
- The warning the segmenter prints is returned as a list of `Warning`
  records.
- Precision, recall and F1 are exact `real` ratios.

## Model

| member | source | states |
|---|---|---|
| Text.Strip | WNUT17/wnuteval.py:42 | `str.strip`: the result is empty exactly when the line is all whitespace, and otherwise begins and ends with a non-space |
| Text.TrimStart | WNUT17/wnuteval.py:42 | the leading-whitespace half of `strip`: what is dropped is all whitespace, and what is kept is a suffix that starts with a non-space |
| Text.TrimEnd | WNUT17/wnuteval.py:42 | the trailing-whitespace half of `strip`: what is dropped is all whitespace, and what is kept is a prefix that ends with a non-space |
| Text.Split | WNUT17/wnuteval.py:108 | `line.split('\t')`: at least one field, no field holds the separator, and joining the fields gives the line back |
| Text.SplitJoin | WNUT17/wnuteval.py:108 | splitting the join of separator-free fields gives the same fields back |
| Text.SplitCons | WNUT17/wnuteval.py:108 | a separator-free first field followed by the separator splits off as one field |
| Text.SplitNone | WNUT17/wnuteval.py:108 | a string without the separator is one field |
| Text.IndexOf | WNUT17/wnuteval.py:74 | the first position of a character that occurs |
| Text.SplitOnce | WNUT17/wnuteval.py:74 | `split('-', 1)`: one part exactly when there is no hyphen; otherwise a hyphen-free head, the first hyphen and the rest |
| Text.LexLessIrreflexive | WNUT17/wnuteval.py:528 | the code-point order `sorted` uses is irreflexive |
| Text.LexLessTransitive | WNUT17/wnuteval.py:528 | the code-point order is transitive |
| Text.LexLessTotal | WNUT17/wnuteval.py:528 | any two distinct strings are ordered |
| Lists.Flatten | WNUT17/wnuteval.py:278-286 | `flatten`: an element is in the result exactly when it is in one of the inner lists |
| Lists.FlattenAppend | WNUT17/wnuteval.py:278-286 | flattening distributes over concatenation |
| Lists.FlattenLength | WNUT17/wnuteval.py:278-286 | the flattened length is the sum of the inner lengths |
| Tags.MakeTok | WNUT17/wnuteval.py:57-77 | `make_tok`: a token keeps its word and ids, is well formed and prints back to the same field; a field without hyphen fails the unpack and any other bad field is "Invalid tag" |
| Tags.TagField | WNUT17/wnuteval.py:88 | the tag field is `O` exactly for an untagged token; otherwise it is the BIO letter, a hyphen and the type |
| Tags.TokenToConll | WNUT17/wnuteval.py:80-88 | `token_to_conll`: for a well-formed token whose word has no tab, the line splits on tabs into exactly the word and the tag field |
| Tags.MakeTokAccepts | WNUT17/wnuteval.py:71-77 | `make_tok` succeeds exactly on `O` and on `B-`, `I-` or `O-` followed by one of the six types, so `O-person` is accepted |
| Tags.ValidFieldParses | WNUT17/wnuteval.py:71-77 | every accepted field parses |
| Tags.ParsedFieldIsValid | WNUT17/wnuteval.py:71-77 | every field that parses is one of the accepted forms |
| Tags.NoTabInValidField | WNUT17/wnuteval.py:54 | no accepted field contains a tab, so a printed token splits into exactly two fields |
| Tags.TokenRoundTrip | WNUT17/wnuteval.py:80-88 | printing a parsed token and parsing the two fields of the line again gives back the same token |
| Tags.ValidTagField | WNUT17/wnuteval.py:80-88 | every well-formed token prints to an accepted field |
| Tags.TagFieldInjective | WNUT17/wnuteval.py:80-88 | the printed field determines a well-formed token's marker and type |
| Tags.ValidTokenRoundTrip | WNUT17/wnuteval.py:80-88 | every well-formed token whose word has no tab survives printing and re-parsing |
| Sentences.StripAll | WNUT17/wnuteval.py:42 | every line stripped, one for one |
| Sentences.SplitSents | WNUT17/wnuteval.py:33-49 | the sentences of the stripped lines; there is always at least one |
| Sentences.GetSents | WNUT17/wnuteval.py:33-49 | the loop that appends to and resets `sent` yields exactly the sentences of `SplitSents` |
| Sentences.SentCount | WNUT17/wnuteval.py:44-49 | there is one sentence more than there are blank stripped lines |
| Sentences.SentsHaveNoBlank | WNUT17/wnuteval.py:44-48 | no sentence contains an empty line |
| Sentences.SentsConcat | WNUT17/wnuteval.py:44-49 | the sentences, concatenated, are the non-blank stripped lines in order |
| Sentences.FieldsSplit | WNUT17/wnuteval.py:108 | the fields of `line.split('\t')`: at least one, none holding a tab, and joined with tabs they give the line back |
| Sentences.LineToToksSpec | WNUT17/wnuteval.py:91-113 | `line_to_toks`: succeeds exactly when every tag field is accepted, and otherwise fails as "Invalid line" with the line and its ids; there is one token per tag field, each with the line's word, the given ids and that field |
| Sentences.FieldsParse | WNUT17/wnuteval.py:107-111 | every field of a line parses exactly when every field is accepted |
| Sentences.TagFields | WNUT17/wnuteval.py:80-88 | the printed tag fields of a token list, one per token |
| Sentences.LineRoundTrip | WNUT17/wnuteval.py:91-113 | the word and the printed fields of a parsed line, joined by tabs, give the line back |
| Sentences.AppendColumns | WNUT17/wnuteval.py:128-129 | appending token i of a line to bucket i, with buckets created on demand, gives `AddToBuckets` |
| Sentences.AddToBucketsSpec | WNUT17/wnuteval.py:127-129 | the `defaultdict` appends: item c lands at the end of bucket c, a bucket is created for an item that has none, and the other buckets are unchanged |
| Sentences.SentColumns | WNUT17/wnuteval.py:116-130 | the buckets of a sentence are non-empty, and every token carries the sentence id and is well formed |
| Sentences.SentToToks | WNUT17/wnuteval.py:116-130 | the nested loop of `sent_to_toks` computes `SentColumns`, stopping at the first bad line |
| Sentences.SentColumnsErrSticks | WNUT17/wnuteval.py:112-113 | once a line fails, the sentence fails with that line's error |
| Sentences.SentColumnsFails | WNUT17/wnuteval.py:104-129 | a sentence fails to group exactly when one of its lines has a rejected tag field, and then with "Invalid line" naming the first such line and its ids |
| Sentences.SentColumnsFirstBad | WNUT17/wnuteval.py:104-129 | a sentence that fails to group fails at its first line with a rejected tag field, with "Invalid line" naming that line and its ids |
| Sentences.SentColumnsAllParse | WNUT17/wnuteval.py:126-129 | in a sentence that groups, every line parses |
| Sentences.TransposedStep | WNUT17/wnuteval.py:127-129 | appending a line's n tokens to the buckets of the lines before it, bucket c getting token c, keeps bucket c the list of every line's c-th token |
| Sentences.LineByLineStep | WNUT17/wnuteval.py:127-129 | one more line of n tokens keeps bucket c holding the c-th token of every line, in line order |
| Sentences.UniformLineByLine | WNUT17/wnuteval.py:126-129 | when all lines have the same number of fields, bucket c holds the c-th token of every line, in line order |
| Sentences.UniformColumns | WNUT17/wnuteval.py:126-129 | when all lines have n tag fields, there are n buckets, each as long as the sentence, numbering its words 0, 1, 2, ... and holding each line's word and c-th field |
| Sentences.DocColumns | WNUT17/wnuteval.py:261-275 | every sentence list in every bucket is non-empty, and its tokens share one sentence id and are well formed |
| Sentences.DocColumnsErrSticks | WNUT17/wnuteval.py:271-274 | once a sentence fails, the document fails with that sentence's error |
| Sentences.DocColumnsFails | WNUT17/wnuteval.py:261-275 | a document fails to group exactly when one of its sentences does, and then with the error of the first such sentence |
| Sentences.DocColumnsFirstBad | WNUT17/wnuteval.py:270-274 | a document that fails to group fails with the error of its first sentence that does not group |
| Sentences.DocColumnsAllGroup | WNUT17/wnuteval.py:270-274 | in a document that groups, every sentence groups |
| Sentences.DocColumnsNext | WNUT17/wnuteval.py:271-274 | one more sentence: its error becomes the document's error, or its buckets are appended to the document's |
| Sentences.DocToTokses | WNUT17/wnuteval.py:261-275 | the loop of `doc_to_tokses`, with sentence ids counting every sentence, computes `DocColumns` |
| Sentences.SentColumnsOrdered | WNUT17/wnuteval.py:126-129 | within each bucket of a sentence, word ids strictly increase and stay below the number of lines, since line w gives word id w |
| Sentences.DocColumnsOrdered | WNUT17/wnuteval.py:270-274 | within each bucket of a document, sentence ids strictly increase from one sentence list to the next and stay below the number of sentences, and each list's word ids strictly increase |
| Sentences.UniformDocConsecutive | WNUT17/wnuteval.py:271-274 | when all lines carry the same number of fields, every sentence's tokens in every column number their words 0, 1, 2, ... |
| Sentences.DocToToks | WNUT17/wnuteval.py:289-299 | `doc_to_toks` fails exactly when grouping fails, with the grouping error; otherwise there is one list per source column, holding that column's sentences one after another, and every token in it is well formed |
| Segmenter.Segment | WNUT17/wnuteval.py:189-223 | the fold seeded with the first token's entity; a successful fold has at least one entity |
| Segmenter.MakeEntitySpec | WNUT17/wnuteval.py:200-201 | `make_entity`: the one-word entity of a token is well formed and by itself partitions the one-token sentence |
| Segmenter.ExtendEntitySpec | WNUT17/wnuteval.py:203-204 | `extend_entity`: keeps the entity's words as a prefix, its start, sentence and type, appends the token's word and ends after the token; a typed well-formed entity extended by the very next token stays well formed |
| Segmenter.ReduceSpec | WNUT17/wnuteval.py:206-221 | the `reducer`: fails exactly on an `O` marker with a type, naming the entity in progress; otherwise keeps the finished entities, grows the entity in progress on an `I` of its type and pushes a new one otherwise, leaves last an entity ending after the token with its type, and warns exactly on an `I` of another type |
| Segmenter.ToksToEntities | WNUT17/wnuteval.py:206-223 | the loop that pops the entity in progress and pushes one or two back computes `Segment`, stopping at the first fatal token |
| Segmenter.SegmentErrSticks | WNUT17/wnuteval.py:219-220 | once a prefix fails, the whole sentence fails with that error |
| Segmenter.SegmentFails | WNUT17/wnuteval.py:206-223 | the fold fails exactly when some token after the first has the `O` marker and a type; the first token is never checked |
| Segmenter.SegmentPartitions | WNUT17/wnuteval.py:200-223 | with word ids counting from k, the entities tile positions k to k+n-1 without gap or overlap; each starts where a token does not continue its predecessor, keeps that token's sentence, has `stop - start` equal to its number of words, and holds the words and type of the tokens it covers |
| Segmenter.StartKeepsPartition | WNUT17/wnuteval.py:211-218 | starting a new entity at the next token keeps the partition |
| Segmenter.ExtendKeepsPartition | WNUT17/wnuteval.py:208-210 | extending the entity in progress keeps the partition |
| Segmenter.PartitionStep | WNUT17/wnuteval.py:206-221 | each successful step of the fold keeps the partition |
| Segmenter.SegmentLast | WNUT17/wnuteval.py:200-204 | the last entity has the last token's type and ends one past its word id |
| Segmenter.Words | WNUT17/wnuteval.py:152 | the words of a token list, one for one |
| Segmenter.ReduceSpelling | WNUT17/wnuteval.py:206-221 | each successful step appends exactly the token's word to the entities' words |
| Segmenter.SegmentWords | WNUT17/wnuteval.py:189-223 | the entities' words, concatenated, are the sentence's words: nothing is dropped, duplicated or reordered |
| Segmenter.SpellingConcat | WNUT17/wnuteval.py:278-286 | the words of concatenated entity lists are the concatenated words |
| Segmenter.WarnedTokens | WNUT17/wnuteval.py:216 | the tokens the warnings are about, one per warning |
| Segmenter.SegmentWarnings | WNUT17/wnuteval.py:215-218 | a warning is raised for exactly the `I` tokens whose type differs from the token before, in order, and each one names an entity of another type |
| Segmenter.SegmentWellFormed | WNUT17/wnuteval.py:206-213 | with consecutive word ids and well-formed tokens, every entity has at least one word, ends one past its last word, and has exactly one word when its type is `O` |
| Segmenter.SegmentShaped | WNUT17/wnuteval.py:200-223 | whatever the word ids, every entity built from well-formed tokens has at least one word, and exactly one when its type is `O`, since only a typed `I` token extends an entity |
| Segmenter.ReduceShaped | WNUT17/wnuteval.py:206-221 | a step with a well-formed token keeps every entity with at least one word, and exactly one when its type is `O` |
| Segmenter.ReduceOrdered | WNUT17/wnuteval.py:200-221 | a step with a later token of the same sentence keeps every entity in that sentence with strictly increasing starts, none after the token |
| Segmenter.SegmentOrdered | WNUT17/wnuteval.py:200-223 | over one sentence's tokens with increasing word ids, all entities carry that sentence id and begin at strictly increasing word ids |
| Segmenter.EntityToTokens | WNUT17/wnuteval.py:136-153 | `entity_to_tokens`: one token per word, with the entity's sentence, type and consecutive word ids from its start; the marker is `O` for an untyped entity and otherwise `B` first and `I` after |
| Segmenter.EntityToConll | WNUT17/wnuteval.py:156-164 | `entity_to_conll`: one line per word |
| Segmenter.EntityConllRoundTrip | WNUT17/wnuteval.py:156-164 | for an entity whose type is `O` or one of the six and whose words have no tab, each printed line splits into two fields that parse back into the entity's token at that place |
| Segmenter.Retokenize | WNUT17/wnuteval.py:136-153 | the tokens of a list of entities, as many as the entities have words |
| Segmenter.SegmentNextEntity | WNUT17/wnuteval.py:211-213 | after tokens that segment into finished entities with no warning, the first token of one more well-formed entity starts it as a new entity |
| Segmenter.SegmentNextWord | WNUT17/wnuteval.py:208-210 | each further token of that entity extends the entity in progress by its word |
| Segmenter.SegmentEntityWords | WNUT17/wnuteval.py:206-213 | after tokens that segment into some entities with no warning, the first m tokens of one more well-formed entity segment into those entities plus that entity's first m words |
| Segmenter.RoundTripStep | WNUT17/wnuteval.py:136-153 | if the tokens of a list of entities segment back into that list, so do the tokens of the list with one more well-formed entity |
| Segmenter.RetokenizeRoundTrip | WNUT17/wnuteval.py:136-153 | `toks_to_entities` inverts `entity_to_tokens`: the tokens of any non-empty list of well-formed entities segment back into exactly those entities, with no warning |
| Segmenter.SegmentIdempotent | WNUT17/wnuteval.py:189-223 | segmenting, converting the entities back to tokens and segmenting again gives the same entities and no warning, even when the first pass repaired mismatched `I` tags |
| Segmenter.GappedRoundTrip | WNUT17/wnuteval.py:136-153 | with word ids 0 and 2, `B-person` then `I-person` segment into an entity ending at 3, whose tokens are renumbered 0 and 1 and segment into an entity ending at 2: the round trip needs consecutive ids |
| Scoring.AsSet | WNUT17/wnuteval.py:366 | `set(xs)`: exactly the elements of the list |
| Scoring.SubsetCard | WNUT17/wnuteval.py:473-477 | a subset has no more elements than its superset |
| Scoring.AsSetCard | WNUT17/wnuteval.py:474-477 | a list has at least as many entries as distinct elements, and exactly as many when none repeats |
| Scoring.GetCorrect | WNUT17/wnuteval.py:357-378 | `get_correct` and `get_tp`: the elements in both lists |
| Scoring.GetFn | WNUT17/wnuteval.py:381-390 | `get_fn`: the gold elements that were not guessed |
| Scoring.GetFp | WNUT17/wnuteval.py:393-402 | `get_fp`: the guesses that are not gold |
| Scoring.GetTn | WNUT17/wnuteval.py:405-416 | `get_tn`: the population without the three other sets |
| Scoring.GetTpFpFnTn | WNUT17/wnuteval.py:419-433 | `tp`, `fp` and `fn` are pairwise disjoint; `tp` and `fn` make up the gold set, `tp` and `fp` the guessed one; `tn` avoids all three, lies within the population, and is the population minus gold and guesses |
| Scoring.GetPhrases | WNUT17/wnuteval.py:167-175 | `get_phrases`: the word tuples of the entities |
| Scoring.GetPhrasesAndTags | WNUT17/wnuteval.py:178-186 | `get_phrases_and_tags`: the (word tuple, type) pairs of the entities |
| Scoring.PhrasesAndTagsCard | WNUT17/wnuteval.py:471-477 | there are no more distinct surface forms than entities |
| Scoring.PhrasesAndTagsMono | WNUT17/wnuteval.py:471-477 | fewer entities give no more surface forms |
| Scoring.GetTpFpFnTnPhrases | WNUT17/wnuteval.py:436-454 | the true positives are exactly the word tuples of entities both lists hold at the same place with the same type; `tp` and `fp` split the guessed tuples and `tp` and `fn` the gold ones; `tn` is the population's tuples that are neither gold nor guessed |
| Scoring.PhrasesFpFnOverlap | WNUT17/wnuteval.py:444-452 | one word tuple at different places in gold and guesses is both a false positive and a false negative, so `fp` and `fn` need not be disjoint |
| Scoring.Ratio | WNUT17/wnuteval.py:479-486 | `correct / guess` or `correct / gold`: 0 on a zero denominator, otherwise times the denominator it gives the numerator, and it is in [0, 1] when the numerator is at most the denominator |
| Scoring.FScore | WNUT17/wnuteval.py:487-490 | `2pr / (p + r)`: 0 when `p + r` is 0, and otherwise times `p + r` it gives `2pr` |
| Scoring.MeanBetween | WNUT17/wnuteval.py:487-490 | any f with f(p + r) = 2pr, for 0 <= p <= r and p + r > 0, lies between p and r |
| Scoring.FScoreBetween | WNUT17/wnuteval.py:487-490 | F1 lies between precision and recall |
| Scoring.FScoreBounds | WNUT17/wnuteval.py:487-490 | F1 is in [0, 1] when p and r are, and is 1 when both are 1 |
| Scoring.RatioSelf | WNUT17/wnuteval.py:479-486 | a non-zero count over itself is 1 |
| Scoring.MakeResults | WNUT17/wnuteval.py:475-492 | the scores follow the zero-denominator rules and lie in [0, 1] when the correct count is at most both others |
| Scoring.ExactResults | WNUT17/wnuteval.py:465-492 | without surface forms, gold and guess are list lengths and correct is the number of distinct shared elements, which is at most both; p, r and f are in [0, 1] |
| Scoring.SurfaceResults | WNUT17/wnuteval.py:465-492 | with surface forms, the counts are distinct (words, type) pairs, correct being those of the entities matched at the same place; correct is at most both others; p, r and f are in [0, 1] |
| Scoring.CalcResults | WNUT17/wnuteval.py:457-492 | `calc_results`: without surface forms the counts are the list lengths and the number of distinct shared entities, with surface forms the numbers of distinct (words, type) pairs of each list and of the shared entities; the scores are those of the counts, in [0, 1], with `correct` at most both other counts |
| Scoring.ScoresDetermined | WNUT17/wnuteval.py:457-492 | the counts and scores stated for a mode fit one result row only, so `CalcResults` is fully specified by its contract |
| Scoring.ExactIdentical | WNUT17/wnuteval.py:465-492 | a non-empty list without repeats scored against itself gives p = r = f = 1 |
| Scoring.ExactDuplicate | WNUT17/wnuteval.py:474-477 | a repeated element counts twice in the lengths but once among the correct ones, so `[x, x]` against itself has p = 1/2 |
| Scoring.SurfaceIdentical | WNUT17/wnuteval.py:470-477 | on surface forms, any non-empty list scored against itself gives p = r = f = 1 |
| Scoring.SurfaceCorrectShared | WNUT17/wnuteval.py:469-473 | every correct surface form is a surface form of both lists |
| Scoring.SurfaceCorrectNotShared | WNUT17/wnuteval.py:469-473 | the converse fails: one surface form at different places in gold and guesses scores 0 correct, because correctness is decided on the exact entities before projecting |
| Scoring.CalcResultsPermuted | WNUT17/wnuteval.py:457-492 | scoring depends only on which entities the lists hold and how often, so reordering both lists changes no count and no score |
| Scoring.MovedAsSet | WNUT17/wnuteval.py:366 | the distinct entities of renumbered lists are the renumbered distinct entities |
| Scoring.MovedMeet | WNUT17/wnuteval.py:357-378 | renumbering sentences without merging two keeps exactly the shared entities |
| Scoring.MovedCard | WNUT17/wnuteval.py:474-477 | renumbering sentences without merging two keeps the number of distinct entities |
| Scoring.MovedSurface | WNUT17/wnuteval.py:178-186 | renumbering sentences changes no (words, type) pair |
| Scoring.CalcResultsRenumbered | WNUT17/wnuteval.py:457-492 | renumbering the sentences of gold and guesses alike, without merging two, changes no count and no score in either mode |
| Evaluation.FilterEntities | WNUT17/wnuteval.py:238-247 | `filter_entities`: exactly the entities satisfying the predicate, no more of them, and all of them when every one satisfies it |
| Evaluation.FilterAppend | WNUT17/wnuteval.py:238-247 | filtering distributes over concatenation, so the kept entities stay in order |
| Evaluation.DropOtherEntities | WNUT17/wnuteval.py:226-258 | `drop_other_entities`: exactly the entities whose type is not `O` |
| Evaluation.NonOtherTyped | WNUT17/wnuteval.py:226-235 | `non_other`: an entity whose type is `O` or a vocabulary type is kept exactly when its type is one of the six |
| Evaluation.OfTag | WNUT17/wnuteval.py:529-530 | the per-type filter of `fmt_results`: exactly the entities of that type |
| Evaluation.GetTags | WNUT17/wnuteval.py:331-339 | `get_tags`: exactly the types some entity has, without `O` |
| Evaluation.HasLeast | WNUT17/wnuteval.py:528 | a non-empty set of types has a first element in code-point order |
| Evaluation.LeastUnique | WNUT17/wnuteval.py:528 | that first element is unique |
| Evaluation.LeastFirst | WNUT17/wnuteval.py:528 | the least type followed by the sorted remaining types is sorted and holds exactly the set |
| Evaluation.SortedTags | WNUT17/wnuteval.py:528 | `sorted(tags)`: each type once, in strictly increasing code-point order |
| Evaluation.SegmentSents | WNUT17/wnuteval.py:313-314 | one entity list per sentence of a column |
| Evaluation.SegmentSentsSpec | WNUT17/wnuteval.py:313-314 | a column segments exactly when each of its sentences does, holding each sentence's entities in order; otherwise it fails with the error of the first rejected sentence |
| Evaluation.SegmentColumns | WNUT17/wnuteval.py:302-315 | one list of sentence entity lists per column |
| Evaluation.SegmentColumnsSpec | WNUT17/wnuteval.py:302-315 | the document segments exactly when every column does, holding each column's result in column order |
| Evaluation.SegmentColumnsErr | WNUT17/wnuteval.py:302-315 | a document that does not segment fails with the error of its first column that does not |
| Evaluation.DocToEntitieses | WNUT17/wnuteval.py:302-315 | `doc_to_entitieses`: a grouping error is the result; otherwise it succeeds exactly when every column's sentences segment, with one entry per column holding that column's sentences' entities in order, and fails with the error of the first column that does not segment |
| Evaluation.DocToEntities | WNUT17/wnuteval.py:318-328 | `doc_to_entities` succeeds exactly when `doc_to_entitieses` does, and fails with its error; otherwise each column holds that column's sentence entity lists one after another, and the warnings are passed on |
| Evaluation.ColumnWords | WNUT17/wnuteval.py:302-328 | a column's entities, flattened, spell out the column's flattened words |
| Evaluation.DocWords | WNUT17/wnuteval.py:289-328 | whenever `doc_to_entities` succeeds, so does `doc_to_toks`, with as many columns, and each column's entities spell out that column's tokens in order |
| Evaluation.DocWellFormed | WNUT17/wnuteval.py:302-328 | when every line carries the same number of tag fields, every entity of every column is well formed |
| Evaluation.DocShaped | WNUT17/wnuteval.py:302-328 | in any document, every entity of every column has at least one word, and exactly one when its type is `O` |
| Evaluation.ColumnDistinct | WNUT17/wnuteval.py:313-315 | a column whose sentences have increasing sentence ids and increasing word ids segments into entities none of which repeats |
| Evaluation.DocEntitiesDistinct | WNUT17/wnuteval.py:302-328 | in every column of `doc_to_entities`, no entity occurs twice, and none of the typed entities either |
| Evaluation.FilterDistinct | WNUT17/wnuteval.py:238-247 | filtering a list without repeats leaves a list without repeats |
| Evaluation.DocSelfPerfect | WNUT17/wnuteval.py:465-492 | a column's typed entities scored exactly against themselves give p = r = f = 1 whenever there is one |
| Evaluation.TagRow | WNUT17/wnuteval.py:529-535 | one type's row: that type, and the counts and scores `calc_results` gives for the gold and guessed entities of that type alone |
| Evaluation.TagRows | WNUT17/wnuteval.py:528-535 | one row per given type, in order, each holding the counts and scores of that type's gold and guessed entities |
| Evaluation.TypeRows | WNUT17/wnuteval.py:527-535 | one row per type of the gold entities, each once, in strictly increasing order, each holding the counts and scores of that type's gold and guessed entities |
| Evaluation.FmtResults | WNUT17/wnuteval.py:496-528 | `fmt_results`: fails exactly when the gold or `sys_1` column is missing, naming the first one it looks up; the token results are the list lengths and distinct shared tokens, the tagged results those of the typed gold and `sys_1` entities in the chosen mode; accuracy is reported exactly when there is a gold token, and is correct over gold tokens in [0, 1]; the rows are `TypeRows` |
| Evaluation.RowsSplitGold | WNUT17/wnuteval.py:509-531 | without surface forms, the per-type gold counts add up to the overall typed gold count |
| Evaluation.TypeRowsSplitGold | WNUT17/wnuteval.py:527-531 | without surface forms, the gold counts of the rows of the sorted gold types add up to the number of typed gold entities |
| Evaluation.SortedDistinct | WNUT17/wnuteval.py:528 | a strictly increasing list of types has no repeats |
| Evaluation.GoldTypesListed | WNUT17/wnuteval.py:527-528 | every typed gold entity's type is among the sorted gold types, and `O` is not |
| Evaluation.CountTagsTyped | WNUT17/wnuteval.py:527-531 | with distinct types, none `O`, covering every typed entity, the per-type counts add up to the number of typed entities |

## Left out

- `main`, `fileinput` and every `print` are I/O glue and are not modelled. The report is modelled as the `Results` it picks, not as text.
- `fmt_results` string rendering: `%6.2f`, the percentage scaling by 100 and the text layout are not modelled. Accuracy is the ratio before scaling.
- The `all` result of `fmt_results` is computed and never used. It is not modelled, except that its lookup of the gold and `sys_1` columns is the first place a missing column fails.
- `get_tagged_entities` is modelled inline in `Evaluation.FmtResults`, which drops `O` entities from the gold and `sys_1` columns only. The other columns are never read.
- Python floats are exact `real` ratios. Rounding is not modelled.
- The warning printed to stderr is returned as a list of `Warning` records. When a later error aborts the run, the model drops the warnings already printed.
- The missing `reduce` import under Python 3 is an environment artefact, so the fold is modelled directly.
- Segmenter.Segment: the source raises `IndexError` on an empty token list. The model requires a non-empty list instead. Grouping never produces an empty sentence list, because an empty sentence creates no bucket entries, although it still uses up a sentence id.
- Whitespace is the set of characters Python's `str.isspace` accepts. Unicode normalisation and encodings are not modelled; strings are sequences of code points.
- Scoring.ExactIdentical: perfect scores are stated only for lists without repeats. `Scoring.ExactDuplicate` shows the code gives less otherwise. Lists read from a document never repeat an entity (`Evaluation.DocEntitiesDistinct`), so `Evaluation.DocSelfPerfect` holds with no such condition.
- Evaluation.RowsSplitGold: stated for gold counts without surface forms only. Guesses of types absent from gold have no row, so guessed counts need not add up.
- Segmenter.SegmentWellFormed, Segmenter.SegmentIdempotent and Evaluation.DocWellFormed assume word ids count up by one. In a document whose lines carry different numbers of tag columns, a later column skips the short lines. Its word ids then have gaps, and an entity's `stop - start` can exceed its number of words. That an entity has at least one word, and one only when untyped, holds regardless (`Segmenter.SegmentShaped`, `Evaluation.DocShaped`). The round trip then fails, as `Segmenter.GappedRoundTrip` shows.
- Reordering a document's sentences is stated as a renumbering of sentence ids applied to gold and guesses alike (`Scoring.CalcResultsRenumbered`), together with `Scoring.CalcResultsPermuted` for the order of the lists. Both modes are unchanged by it. Surface mode is not position-free beyond that: correctness is decided on the exact entities before projecting, so moving only one side's sentences can change it (`Scoring.SurfaceCorrectNotShared`).
