# Thesaurus core in Dafny

A Dafny model of the dictionary and thesaurus pipeline of the Kotlin project
Thesaurus. This is the pipeline that turns a part-of-speech dictionary and a
word2vec model into a Ukrainian thesaurus. The model covers:

- **Tag grammar** (`Lemmas`, `Declensions`, `SpeechParts`):
  - a dictionary line `word tag1:tag2:...` is split at its first space;
  - its tags become `Lemma`s;
  - ten recognizers are tried in a fixed order, each looking only at the head tag;
  - the noun, adjective and numeral recognizers scan the tail for the first
    declension code, with nominative as the default.
- **Rendering** (`Formatter`): a part of speech and its neighbours rendered
  as one Ukrainian thesaurus line.
- **Dictionary loading** (`Misc`), over a file's lines given as a sequence:
  - blank lines are dropped;
  - the surviving lines are parsed with 1-based positions, and the first
    failure ends the load;
  - the parts are folded into a map where the last write wins;
  - the dic_uk line converter and the `findOrDefault` and `Array.map`
    helpers are modelled too.
- **Thesaurus builder** (`Word2Vec2Dict`):
  - vocabulary words are looked up in the dictionary;
  - each found word's nearest neighbours come from a `nearest(word, n)`
    function parameter and are looked up in turn;
  - the results are chunked, flattened and sorted by descending word;
  - the loss is counted.
- **Evaluator** (`Evaluator`): question lines are tokenised, and the
  questions answered within the ten nearest neighbours are counted.
- **Article buffer** (`Articles`, `ChunkArticleFilters`):
  - the `Article` record and its constructor checks;
  - `ChunkArticleFilter` as a class whose `buffer` is filled article by
    article and is emitted when it holds more than `chunkSize` articles or
    on flush.

Two modules hold the Kotlin library behaviour the code depends on: `KotlinText`
(blankness, `substringBefore`/`substringAfter`, `split`, `joinToString`, `trim`,
`Int.toString`, string order, UTF-16 units) and `KotlinCollections` (`filter`,
`flatten`, `chunked`). `Wrappers` holds `Option` and `Result`, which stand in
for arrow's `Option` and `Either`.

Main results proved:

- Every part whose word has no space parses back from its dictionary line
  (`ParseDictionaryLine`).
- The recognizer chain's result does not depend on the recognizers' order
  (`FromChainOrderIrrelevant`).
- Chunking does not change the thesaurus (`ChunkingIrrelevant`, `ChunkSizeIrrelevant`).
- The final list of entries is sorted and is a permutation of the unsorted
  entries, and the loss is the number of unknown words (`BuildThesaurusSpec`).
- Loading a dictionary fails fast, and a failure names the first bad line
  with its position (`ParseDictionaryFailure`, `ParseDictionaryFailFast`).
- The article filter's class invariant: no accepted article is lost or
  reordered, and the buffer never holds more than a chunk.

Where the code differs from its evidently intended behaviour, the model follows the code:

- An empty or blank tag (as in `word noun::v_rod`) makes `Lemma.of` throw
  inside `fromInput`; it is not returned as a `Left`.
  - So `parseDictionary`'s `mapLeft` never wraps it, and `loadDictionary`
    fails with that exception itself, without file or position.
  - The model calls this `LoadError.Uncaught`.
- A line without a space uses the whole line as both the word and the tag
  text: `noun` parses as the nominative Noun `noun`.
- The separator in front of the neighbour list is `, cхожі слова: `, and its
  first letter is a Latin `c`.

## Model

| member | source | states |
|---|---|---|
| Lemmas.Make | src/main/kotlin/speech/Lemma.kt:15-17 | a Lemma exists exactly for a non-empty, non-blank value, and it holds that value |
| Lemmas.Equals | src/main/kotlin/speech/Lemma.kt:19-28 | equal exactly when the other is a Lemma with the same value; null is never equal |
| Lemmas.UnsignedHash | src/main/kotlin/speech/Lemma.kt:30 | the Java string hash with 32-bit wrap-around stays within 32 bits |
| Lemmas.HashCode | src/main/kotlin/speech/Lemma.kt:30 | the hash is the value's Java `String.hashCode`: a signed 32-bit Int congruent to the wrapped hash modulo 2^32, negative exactly when its top bit is set |
| Lemmas.EqualLemmasHashAlike | src/main/kotlin/speech/Lemma.kt:19-30 | equal Lemmas have equal hash codes |
| Lemmas.ToString | src/main/kotlin/speech/Lemma.kt:31 | starts with `Lemma(value='`, ends with `')`, and holds exactly the value between them |
| Lemmas.LemmaPool.constructor | src/main/kotlin/speech/Lemma.kt:8 | the cache starts empty and consistent |
| Lemmas.LemmaPool.Of | src/main/kotlin/speech/Lemma.kt:10-12 | the result is what the constructor gives; an admissible value ends up cached under itself; a second call leaves the cache unchanged; a rejected value caches nothing |
| Declensions.ValuesEnumerateDistinctCodes | src/main/kotlin/speech/Declension.kt:5-13 | seven cases, each listed, with pairwise distinct raw codes |
| Declensions.RawInjective | src/main/kotlin/speech/Declension.kt:7-13 | two cases with the same raw code are the same case |
| Declensions.FindByRaw | src/main/kotlin/speech/Declension.kt:16-18 | `find` yields a listed case with the raw code, or nothing when no listed case has it |
| Declensions.DeclensionOf | src/main/kotlin/speech/Declension.kt:16-18 | a found case has the lemma's value as its raw code |
| Declensions.DeclensionOfIff | src/main/kotlin/speech/Declension.kt:16-18 | the lookup yields d exactly when d's raw code is the Lemma's value |
| Declensions.DeclensionOfUnknown | src/main/kotlin/speech/Declension.kt:17 | a value that is no raw code yields nothing |
| Declensions.DeclensionRoundTrip | src/main/kotlin/speech/Declension.kt:5-18 | every raw code is an admissible Lemma that looks its case up again |
| SpeechParts.ToString | src/main/kotlin/speech/SpeechPart.kt:51-66 | Noun renders as `іменник, <label> відм.`; Adjective and Numeral as `Name(word=<word>, declension=<CASE>)`; the others as `Name(word=<word>)` |
| SpeechParts.ToStringReadsBack | src/main/kotlin/speech/SpeechPart.kt:68-184 | the data-class rendering starts with `Name(word=`, holds the word right after it and ends with `)` |
| SpeechParts.ParserOf | src/main/kotlin/speech/SpeechPart.kt:51-184 | each variant's companion recognizer builds that variant |
| SpeechParts.ParsersCompleteDistinct | src/main/kotlin/speech/SpeechPart.kt:21-24 | the chain holds all ten recognizers, and their literals are pairwise distinct |
| SpeechParts.TagsDiffer | src/main/kotlin/speech/SpeechPart.kt:56-177 | distinct recognizers test distinct literals |
| SpeechParts.Invoke | src/main/kotlin/speech/SpeechPart.kt:54-184 | a recognizer accepts exactly when the head tag is its literal, and builds its own variant with the line's word |
| SpeechParts.FromChain | src/main/kotlin/speech/SpeechPart.kt:35-43 | a part found by the chain carries the word and is built by a recognizer of the chain whose literal is the head tag |
| SpeechParts.InvokeAcceptsIffHead | src/main/kotlin/speech/SpeechPart.kt:54-184 | a recognizer accepts exactly when the head tag is its literal; the tail never decides; the result keeps the word |
| SpeechParts.FromChainNone | src/main/kotlin/speech/SpeechPart.kt:35-43 | the chain yields nothing exactly when every recognizer declines |
| SpeechParts.FromChainSome | src/main/kotlin/speech/SpeechPart.kt:35-43 | with distinct literals the chain yields x exactly when some recognizer yields x |
| SpeechParts.FromChainOrderIrrelevant | src/main/kotlin/speech/SpeechPart.kt:21-43 | any order of the same recognizers gives the same result |
| SpeechParts.FindFirst | src/main/kotlin/speech/SpeechPart.kt:195-208 | a found value is what the parser gives for some element from the start index on |
| SpeechParts.FindFirstSpec | src/main/kotlin/speech/SpeechPart.kt:195-208 | `parse` yields the first accepted element's value, or nothing when none is accepted |
| SpeechParts.ParseDeclension | src/main/kotlin/speech/SpeechPart.kt:189-193 | the declension is NOMINATIVE or the case of some tail tag's code |
| SpeechParts.ParseDeclensionSpec | src/main/kotlin/speech/SpeechPart.kt:189-193 | the declension is that of the first tail tag that is a known code; it is NOMINATIVE when there is none |
| SpeechParts.LemmasOf | src/main/kotlin/speech/SpeechPart.kt:32-33 | all segments become Lemmas, in order, exactly when none is empty or blank; otherwise a rejected segment is reported |
| SpeechParts.FromInput | src/main/kotlin/speech/SpeechPart.kt:26-47 | empty input gives exactly the empty-input error; a parsed word is the text before the first space; an unparsed error carries the whole input |
| SpeechParts.FromInputMessages | src/main/kotlin/speech/SpeechPart.kt:28-46 | the messages `The input was empty` and `Couldn't parse input string=<input>` |
| SpeechParts.FromChainWord | src/main/kotlin/speech/SpeechPart.kt:35-45 | whatever the chain builds carries the line's word |
| SpeechParts.LineParts | src/main/kotlin/speech/SpeechPart.kt:31-33 | a line built from a space-free word and colon-free tags gives back that word and those tags |
| SpeechParts.FromInputRejectsBlankTag | src/main/kotlin/speech/SpeechPart.kt:32-33 | an empty or blank tag anywhere makes `fromInput` throw |
| SpeechParts.FromInputReduces | src/main/kotlin/speech/SpeechPart.kt:31-46 | with admissible tags, `fromInput` is the recognizer chain, and an unaccepted head is an unparsed error |
| SpeechParts.FromInputSelects | src/main/kotlin/speech/SpeechPart.kt:31-46 | the recognizer whose literal is the head tag builds the part from the word and the remaining tags |
| SpeechParts.FromInputUnparsed | src/main/kotlin/speech/SpeechPart.kt:45-46 | a head tag that is no literal gives the unparsed error for the input |
| SpeechParts.ParseDictionaryLine | src/main/kotlin/speech/SpeechPart.kt:26-47 | round trip: each part with a space-free word parses back from its dictionary line |
| SpeechParts.GenitiveNounLine | src/main/kotlin/speech/SpeechPart.kt:51-58 | `<w> noun:v_rod` parses as the genitive Noun of w |
| Formatter.HumanReadable | src/main/kotlin/format/SpeechPartFormatter.kt:25-34 | the formatter's label of each declension is the enum's `decletion` |
| Formatter.Category | src/main/kotlin/format/SpeechPartFormatter.kt:9-18 | each category label is one non-empty word without spaces or commas |
| Formatter.HumanReadableString | src/main/kotlin/format/SpeechPartFormatter.kt:7-19 | begins with the word; declinable variants use `<word> (<category>, <label> відмінок)`, the others `<word> (<category>)` |
| Formatter.Words | src/main/kotlin/format/SpeechPartFormatter.kt:22 | the neighbours' words, in list order |
| Formatter.ToHumanReadableString | src/main/kotlin/format/SpeechPartFormatter.kt:21-23 | the subject's rendering (so the subject's word first), then the separator `, cхожі слова: `, then the neighbours' words joined by `, ` in list order |
| Formatter.EntryStartsWithSubject | src/main/kotlin/format/SpeechPartFormatter.kt:21-23 | an entry is the subject's rendering, then the separator, and starts with the subject's word |
| Formatter.EmptyNeighbours | src/main/kotlin/format/SpeechPartFormatter.kt:22 | with no neighbours the entry ends at the separator |
| Formatter.MoreNeighbours | src/main/kotlin/format/SpeechPartFormatter.kt:22 | neighbours are joined with `, ` in order |
| Formatter.GenitiveNounWithTwoNeighbours | src/main/kotlin/format/SpeechPartFormatter.kt:7-23 | the full text of a genitive Noun's entry with two neighbours |
| Misc.MapArray | src/main/kotlin/misc/Misc.kt:24-26 | a new array of the same length whose element i is transform of element i |
| Misc.FindOrDefault | src/main/kotlin/misc/Misc.kt:28-34 | the first matching element, or the default when nothing matches |
| Misc.ToTuple | src/main/kotlin/misc/Misc.kt:38-44 | a rejected line carries the message `Invalid line was found=<line>` |
| Misc.ToTupleOfFields | src/main/kotlin/misc/Misc.kt:38-44 | three space-free fields give the first and the third |
| Misc.ToTupleRejects | src/main/kotlin/misc/Misc.kt:41 | any other number of fields is rejected |
| Misc.ConvertLines | src/main/kotlin/misc/Misc.kt:50-58 | never more written lines than source lines, and one per source line when none is rejected |
| Misc.DicUkFormatToUsableFormat | src/main/kotlin/misc/Misc.kt:36-61 | writes what the conversion of the lines without the header and blank lines gives |
| Misc.WriteTuples | src/main/kotlin/misc/Misc.kt:50-58 | the writing loop produces exactly the line-by-line conversion: lines up to the first rejected one, then its message |
| Misc.ConvertLinesSpec | src/main/kotlin/misc/Misc.kt:50-58 | each written line is the two fields of its source line (field 1 and field 3 with `toTuple`); a failure reports the first rejected line after all lines before it were written |
| Misc.WrittenLineSplits | src/main/kotlin/misc/Misc.kt:56 | a written line splits back into its two fields |
| Misc.ParseFailureMessage | src/main/kotlin/misc/Misc.kt:113-114 | the message begins `Failed to parse file <f>, line: <line>, position: ` and ends with the position in decimal |
| Misc.ParseLine | src/main/kotlin/misc/Misc.kt:94-97 | succeeds exactly when the line parses; a returned error carries the line and its 1-based position |
| Misc.ParseFrom | src/main/kotlin/misc/Misc.kt:100-109 | on success, one part per surviving line from the start index on |
| Misc.ParseDictionarySpec | src/main/kotlin/misc/Misc.kt:92-111 | on success, one part per surviving line |
| Misc.ParseLineSpec | src/main/kotlin/misc/Misc.kt:94-97 | a returned error is wrapped with the 1-based position; a thrown one is passed on |
| Misc.ParseFromSuccess | src/main/kotlin/misc/Misc.kt:100-109 | success exactly when every surviving line parses, with one part per line in order |
| Misc.ParseFromFailure | src/main/kotlin/misc/Misc.kt:100-108 | a failure is the error of the first surviving line that does not parse |
| Misc.ParseDictionary | src/main/kotlin/misc/Misc.kt:92-111 | the fold with early return computes the dictionary parse |
| Misc.ParseSurvivors | src/main/kotlin/misc/Misc.kt:100-109 | the indexed fold with early return computes the parse of the surviving lines, for any line parser |
| Misc.ParseDictionaryFailure | src/main/kotlin/misc/Misc.kt:92-111 | a failure names the first bad surviving line and its 1-based position among surviving lines |
| Misc.ParseDictionarySuccess | src/main/kotlin/misc/Misc.kt:99-109 | success exactly when every surviving line parses; the parts follow line order |
| Misc.ParseDictionaryFailFast | src/main/kotlin/misc/Misc.kt:101-108 | lines after a failing prefix do not change the result |
| Misc.BlankLineIgnored | src/main/kotlin/misc/Misc.kt:99-100 | an empty or blank line changes nothing, positions included |
| Misc.ToDictionary | src/main/kotlin/misc/Misc.kt:65-75 | the keys are exactly the parsed words, and each key maps to a part with that word |
| Misc.LastWriteWins | src/main/kotlin/misc/Misc.kt:65-75 | a word maps to the last part with that word |
| Misc.LoadDictionary | src/main/kotlin/misc/Misc.kt:63-78 | the `put` fold computes the loaded dictionary |
| Misc.LoadDictionarySpec | src/main/kotlin/misc/Misc.kt:63-78 | loading succeeds exactly when parsing does and otherwise fails with the parse error itself; on success the map is the last-write-wins map of the parsed parts, its keys are exactly their words, and every key maps to a part with that word |
| Misc.PutAll | src/main/kotlin/misc/Misc.kt:65-75 | the `put` loop builds exactly the last-write-wins map of the parts |
| Misc.LoadedDictionary | src/main/kotlin/misc/Misc.kt:63-78 | each surviving line's part is stored under its word unless a later line has the same word |
| Word2Vec2Dict.PresentAndAbsent | src/main/kotlin/word2vec/Word2Vec2Dict.kt:83 | the known and the unknown vocabulary words together are as many as the vocabulary |
| Word2Vec2Dict.LookUpSpec | src/main/kotlin/word2vec/Word2Vec2Dict.kt:113 | the parts of the known words, one per known word, in order |
| Word2Vec2Dict.EntryFor | src/main/kotlin/word2vec/Word2Vec2Dict.kt:116-118 | the entry's word is the part's word, and its text starts with that word |
| Word2Vec2Dict.ToDictionaryEntries | src/main/kotlin/word2vec/Word2Vec2Dict.kt:111-121 | one entry per vocabulary word the dictionary knows, so never more entries than words |
| Word2Vec2Dict.NearestSpeechParts | src/main/kotlin/word2vec/Word2Vec2Dict.kt:123-125 | never more neighbours than the model returned |
| Word2Vec2Dict.NearestSpeechPartsSpec | src/main/kotlin/word2vec/Word2Vec2Dict.kt:123-125 | the neighbours the dictionary knows, in the model's order; every known neighbour is kept |
| Word2Vec2Dict.ToDictionaryEntriesSpec | src/main/kotlin/word2vec/Word2Vec2Dict.kt:111-121 | one entry per known word, in vocabulary order, each rendered with its neighbours; with a loaded dictionary the entry's word is the vocabulary word |
| Word2Vec2Dict.ToDictionaryEntriesAppend | src/main/kotlin/word2vec/Word2Vec2Dict.kt:111-121 | the entries of two joined word lists are the two lists' entries, one after the other |
| Word2Vec2Dict.LookUpAppend | src/main/kotlin/word2vec/Word2Vec2Dict.kt:113 | the lookup distributes over concatenation |
| Word2Vec2Dict.ChunkEntries | src/main/kotlin/word2vec/Word2Vec2Dict.kt:76-77 | one result per chunk |
| Word2Vec2Dict.FlattenChunkEntries | src/main/kotlin/word2vec/Word2Vec2Dict.kt:76-79 | flattening the per-chunk results gives the entries of the flattened chunks |
| Word2Vec2Dict.ChunkingIrrelevant | src/main/kotlin/word2vec/Word2Vec2Dict.kt:76-79 | for every positive chunk size, the flattened results are the entries of the whole vocabulary |
| Word2Vec2Dict.SortByDescendingWord | src/main/kotlin/word2vec/Word2Vec2Dict.kt:80 | the sorted list has as many entries as its input |
| Word2Vec2Dict.SortByDescendingWordSpec | src/main/kotlin/word2vec/Word2Vec2Dict.kt:80 | the sort orders by descending word and is a permutation |
| Word2Vec2Dict.BuildThesaurus | src/main/kotlin/word2vec/Word2Vec2Dict.kt:71-89 | never more entries than vocabulary words, so the loss is never negative |
| Word2Vec2Dict.BuildThesaurusSpec | src/main/kotlin/word2vec/Word2Vec2Dict.kt:71-89 | sorted, a permutation of the vocabulary's entries; loss = vocabulary size − entries = number of unknown words ≥ 0 |
| Word2Vec2Dict.ChunkSizeIrrelevant | src/main/kotlin/word2vec/Word2Vec2Dict.kt:76-83 | two positive chunk sizes build the same thesaurus and loss |
| Evaluator.Tokens | src/main/kotlin/word2vec/Evaluator.kt:30 | every token is non-empty, non-blank and space-free |
| Evaluator.ParseQuestions | src/main/kotlin/word2vec/Evaluator.kt:28-32 | one question per line when all lines parse |
| Evaluator.ParseQuestion | src/main/kotlin/word2vec/Evaluator.kt:30-31 | the given word of a question is a non-blank token without spaces |
| Evaluator.ParseQuestionSpec | src/main/kotlin/word2vec/Evaluator.kt:30-31 | a question exactly when there is a token; the first token is the given word, and the rest are the expected words |
| Evaluator.BlankLineHasNoQuestion | src/main/kotlin/word2vec/Evaluator.kt:30-31 | an empty or blank line yields no question |
| Evaluator.ParseQuestionsSpec | src/main/kotlin/word2vec/Evaluator.kt:28-32 | all lines parse or the list fails; questions follow the lines |
| Evaluator.Minus | src/main/kotlin/word2vec/Evaluator.kt:49 | keeps only words of the list that are not removed, and never lengthens it |
| Evaluator.MinusShrinks | src/main/kotlin/word2vec/Evaluator.kt:49 | `minus` shortens the list exactly when one of its words is removed |
| Evaluator.IsCorrect | src/main/kotlin/word2vec/Evaluator.kt:47-53 | a question with no expected words is never correct |
| Evaluator.IsCorrectSpec | src/main/kotlin/word2vec/Evaluator.kt:47-53 | correct exactly when an expected word is among the ten nearest; never when nothing is expected |
| Evaluator.CountCorrect | src/main/kotlin/word2vec/Evaluator.kt:46-54 | the count grows by at most one per question |
| Evaluator.CountCorrectSpec | src/main/kotlin/word2vec/Evaluator.kt:46-54 | the count is the number of correct questions |
| Evaluator.UnansweredAddNothing | src/main/kotlin/word2vec/Evaluator.kt:49 | questions without expected words never count |
| Articles.NewArticle | src/main/kotlin/parser/Article.kt:9-13 | succeeds exactly when title, text and time stamp are non-blank; otherwise it reports the first failed check |
| Articles.NewArticleValid | src/main/kotlin/parser/Article.kt:3-13 | an article passes the checks exactly when the constructor rebuilds it; id and raw are unconstrained |
| Articles.EmptyFieldsRefused | src/main/kotlin/parser/Article.kt:10-12 | an empty title, text or time stamp is refused |
| ChunkArticleFilters.ChunkArticleFilter.constructor | src/main/kotlin/parser/ChunkArticleFilter.kt:9-27 | a positive chunk size, with nothing buffered, emitted or skipped |
| ChunkArticleFilters.ChunkArticleFilter.OnFlush | src/main/kotlin/parser/ChunkArticleFilter.kt:29-34 | emits the buffer only when it is non-empty and clears it; afterwards the emitted chunks are all accepted articles in order |
| ChunkArticleFilters.ChunkArticleFilter.Process | src/main/kotlin/parser/ChunkArticleFilter.kt:36-58 | a blank text reports the id as skipped; a failed check changes nothing; otherwise the article (trimmed title, newlines as spaces) is appended, and a full buffer goes out as a chunk of chunkSize + 1 articles |
| KotlinText.IndexOf | src/main/kotlin/speech/SpeechPart.kt:31 | the first index of the character, or -1 exactly when it is absent |
| KotlinText.SubstringAround | src/main/kotlin/speech/SpeechPart.kt:31-32 | the text before and after the first space rebuild the line; without a space both are the whole line |
| KotlinText.SplitJoin | src/main/kotlin/speech/SpeechPart.kt:32-33 | splitting joined delimiter-free segments gives the segments back |
| KotlinText.JoinSplit | src/main/kotlin/speech/SpeechPart.kt:32-33 | joining the segments of a split gives the text back |
| KotlinText.SplitSegmentsLackDelimiter | src/main/kotlin/misc/Misc.kt:39 | no segment holds the delimiter |
| KotlinText.SplitOfBlank | src/main/kotlin/word2vec/Evaluator.kt:30 | the segments of a blank text are blank |
| KotlinText.TrimProperties | src/main/kotlin/parser/ChunkArticleFilter.kt:52 | the trimmed title is a slice without whitespace at its ends, and it is blank exactly when the title is |
| KotlinText.ReplaceChar | src/main/kotlin/parser/ChunkArticleFilter.kt:42 | same length; every newline becomes a space; everything else is kept |
| KotlinText.NatToString | src/main/kotlin/misc/Misc.kt:114 | decimal digits whose value is the number, with no leading zero (only 0 itself starts with `0`) |
| KotlinText.LexLeTotal | src/main/kotlin/word2vec/Word2Vec2Dict.kt:80 | string order is total |
| KotlinText.LexLeTransitive | src/main/kotlin/word2vec/Word2Vec2Dict.kt:80 | string order is transitive |
| KotlinText.LexLeAntisymmetric | src/main/kotlin/word2vec/Word2Vec2Dict.kt:80 | string order is antisymmetric |
| KotlinText.Utf16Units | src/main/kotlin/speech/Lemma.kt:30 | 16-bit units, one or two per character |
| KotlinCollections.Filter | src/main/kotlin/misc/Misc.kt:99 | keeps exactly the elements that pass, and never lengthens the list |
| KotlinCollections.FilterAppend | src/main/kotlin/misc/Misc.kt:99 | filtering distributes over concatenation |
| KotlinCollections.FilterKeepsAll | src/main/kotlin/word2vec/Evaluator.kt:49 | nothing is removed exactly when every element passes |
| KotlinCollections.Chunked | src/main/kotlin/word2vec/Word2Vec2Dict.kt:76 | chunks are non-empty, at most the size, and all but the last are full |
| KotlinCollections.FlattenChunked | src/main/kotlin/word2vec/Word2Vec2Dict.kt:76-79 | the chunks flatten back to the input |

## Left out

- Concurrency: the `GlobalScope.async`/`runBlocking` fan-out in the
  thesaurus builder and the parallel load of the dictionary and the model.
  The build is modelled sequentially.
- I/O: files, readers and writers, `storeToFile`, `loadModel`, the CLI
  options and their validation. The model works on lines given as strings.
  `File.toString` is the path string, and the newline `appendln` adds after
  each written line is not modelled.
- The embedding model: `wordsNearest` is the function parameter `nearest`.
  Nothing is assumed about its results. An exception from `wordsNearest`, or
  any other failed chunk, aborts the whole build in the code; the modelled
  build cannot fail, so that abort is not modelled.
- Floating point: the loss percentage and the evaluator's rounded score.
- Logging, the log level, and the clock-dependent `timestamp` and default
  file name.
- Lemmas.LemmaPool.Of: the `WeakHashMap`'s garbage-collection eviction is
  not modelled; the cache is a plain map.
- Lemmas.Equals: object identity (`===`) is not modelled; a Lemma is a
  value, so identity and equality coincide.
- KotlinText.IsWhitespace: `Char.isWhitespace` is modelled over a fixed set
  of characters, not the full Unicode tables.
- KotlinText.LexLe: orders by code point, as `String.compareTo` orders by
  UTF-16 unit. The two agree except between characters beyond the Basic
  Multilingual Plane and characters from U+E000 to U+FFFF.
- Word2Vec2Dict.SortByDescendingWordSpec: stability is built into the
  insertion sort but not stated; the lemma states the order and the
  permutation only.
- Misc.FindOrDefault: models `Iterable.findOrDefault` and
  `Array.findOrDefault` over a sequence; the nullable element type is not
  modelled.
- Misc.MapArray: the reified type parameter plays no part.
- Articles.Article: `id` is an unbounded integer, so the `Int` range of
  `article.id.toInt()` is not modelled. `Process` receives the id already
  as a number, so the `NumberFormatException` that a non-numeric id throws
  before the blank-text check is not modelled either.
- The messages of the three `require` checks in `Article`: each message
  lambda prints the article and yields `Unit`. The model keeps only which
  check failed.
- The wiki rendering and the `REPLACE_MATCHER` clean-up in `process`.
  `Process` receives the cleaned text, and only the newline-to-space
  replacement and the checks after it are modelled.
- The callbacks `onChunkParsed` and `onArticleSkipped` are modelled by what
  they receive; the `ArrayList` copy is a sequence value.
- src/main/kotlin/word2vec/Word2Vec.kt, the data-set generator command and
  the runner are not part of this model. They hold CLI wiring, model
  training and file output.
