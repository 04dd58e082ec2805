/**
 * The thesaurus builder of src/main/kotlin/word2vec/Word2Vec2Dict.kt with the
 * coroutines, the file output and the embedding model taken away: the model's
 * `wordsNearest` is a function passed in.
 */
module Word2Vec2Dict {
  import opened KotlinText
  import opened KotlinCollections
  import opened SpeechParts
  import opened Formatter
  import opened Misc

  /** One line of the thesaurus: the word it is about and its rendering. */
  datatype DictionaryEntry = DictionaryEntry(word: string, content: string)

  /** `Word2Vec.wordsNearest(word, n)`: the model's neighbours of a word, nearest first. */
  type Nearest = (string, int) -> seq<string>

  /** The words of `words` the dictionary knows, in order. */
  function Present(dict: Dictionary, words: seq<string>): (r: seq<string>)
    ensures |r| <= |words|
  {
    if |words| == 0 then [] else (if words[0] in dict then [words[0]] else []) + Present(dict, words[1..])
  }

  /** Every known word is kept. */
  lemma {:induction false} PresentKeepsKnown(dict: Dictionary, words: seq<string>, k: nat)
    requires k < |words| && words[k] in dict
    ensures words[k] in Present(dict, words)
  {
    if k > 0 {
      assert words[k] == words[1..][k - 1];
      PresentKeepsKnown(dict, words[1..], k - 1);
    }
  }

  /** Every word is either known or unknown: the two lists together are as long as the vocabulary. */
  lemma {:induction false} PresentAndAbsent(dict: Dictionary, words: seq<string>)
    ensures |Present(dict, words)| + |Filter(words, w => w !in dict)| == |words|
  {
    if |words| > 0 {
      PresentAndAbsent(dict, words[1..]);
      assert words == [words[0]] + words[1..];
      FilterAppend([words[0]], words[1..], w => w !in dict);
    }
  }

  /** `mapNotNull(dictionary::get)`: the parts of the known words, in order. */
  function LookUp(dict: Dictionary, words: seq<string>): seq<SpeechPart> {
    if |words| == 0 then []
    else (if words[0] in dict then [dict[words[0]]] else []) + LookUp(dict, words[1..])
  }

  /** One part per known word, in order: the part the dictionary holds for it. */
  lemma {:induction false} LookUpSpec(dict: Dictionary, words: seq<string>)
    ensures |LookUp(dict, words)| == |Present(dict, words)|
    ensures forall k | 0 <= k < |LookUp(dict, words)| ::
      Present(dict, words)[k] in dict && LookUp(dict, words)[k] == dict[Present(dict, words)[k]]
  {
    if |words| > 0 {
      LookUpSpec(dict, words[1..]);
      var r, rest := LookUp(dict, words), LookUp(dict, words[1..]);
      var p, pr := Present(dict, words), Present(dict, words[1..]);
      if words[0] in dict {
        assert r == [dict[words[0]]] + rest;
        assert p == [words[0]] + pr;
        forall k | 1 <= k < |r| ensures p[k] in dict && r[k] == dict[p[k]] {
          assert r[k] == rest[k - 1];
          assert p[k] == pr[k - 1];
        }
      } else {
        assert r == rest;
        assert p == pr;
      }
    }
  }

  /** `Word2Vec.nearestSpeechParts(dictionary, to, topN)`. */
  function NearestSpeechParts(vec: Nearest, dict: Dictionary, to: SpeechPart, topN: int): (r: seq<SpeechPart>)
    ensures |r| <= |vec(to.word, topN)|
  {
    LookUpSpec(dict, vec(to.word, topN));
    LookUp(dict, vec(to.word, topN))
  }

  /** The entry of one known part: its word, and its rendering with its known neighbours. */
  function EntryFor(vec: Nearest, dict: Dictionary, part: SpeechPart, topN: int): (e: DictionaryEntry)
    ensures e.word == part.word && |e.content| > |part.word| && e.content[..|part.word|] == part.word
  {
    DictionaryEntry(part.word, ToHumanReadableString(part, NearestSpeechParts(vec, dict, part, topN)))
  }

  /** `Collection<String>.toDictionaryEntries(vec, dictionary, topN)`: look each word up, render the known ones. */
  function ToDictionaryEntries(words: seq<string>, vec: Nearest, dict: Dictionary, topN: int): (r: seq<DictionaryEntry>)
    ensures |r| == |Present(dict, words)| <= |words|
  {
    LookUpSpec(dict, words);
    var parts := LookUp(dict, words);
    seq(|parts|, k requires 0 <= k < |parts| => EntryFor(vec, dict, parts[k], topN))
  }

  /** A breakdown of the nearest neighbours: those the dictionary knows, in the model's order. */
  lemma NearestSpeechPartsSpec(vec: Nearest, dict: Dictionary, to: SpeechPart, topN: int)
    ensures var r := NearestSpeechParts(vec, dict, to, topN);
      var known := Present(dict, vec(to.word, topN));
      && |r| == |known|
      && forall k | 0 <= k < |r| :: known[k] in dict && r[k] == dict[known[k]]
    ensures forall k | 0 <= k < |vec(to.word, topN)| :: vec(to.word, topN)[k] in dict ==>
      dict[vec(to.word, topN)[k]] in NearestSpeechParts(vec, dict, to, topN)
  {
    var ws := vec(to.word, topN);
    LookUpSpec(dict, ws);
    forall k | 0 <= k < |ws| && ws[k] in dict ensures dict[ws[k]] in NearestSpeechParts(vec, dict, to, topN) {
      var known := Present(dict, ws);
      PresentKeepsKnown(dict, ws, k);
      var j :| 0 <= j < |known| && known[j] == ws[k];
      assert NearestSpeechParts(vec, dict, to, topN)[j] == dict[ws[k]];
    }
  }

  /**
   * One entry per word the dictionary knows, in vocabulary order; each is the
   * rendering of that word's part with its neighbours, and a dictionary loaded
   * from a file keeps the vocabulary word as the entry's word.
   */
  lemma ToDictionaryEntriesSpec(words: seq<string>, vec: Nearest, dict: Dictionary, topN: int)
    ensures var r := ToDictionaryEntries(words, vec, dict, topN);
      var known := Present(dict, words);
      && |r| == |known|
      && forall k | 0 <= k < |r| :: known[k] in dict && r[k] == EntryFor(vec, dict, dict[known[k]], topN)
    ensures (forall w | w in dict :: dict[w].word == w) ==>
      forall k | 0 <= k < |ToDictionaryEntries(words, vec, dict, topN)| ::
        ToDictionaryEntries(words, vec, dict, topN)[k].word == Present(dict, words)[k]
  {
    LookUpSpec(dict, words);
  }

  /** Entries of a vocabulary split in two are those of the halves, one after the other. */
  lemma {:induction false} ToDictionaryEntriesAppend(a: seq<string>, b: seq<string>, vec: Nearest, dict: Dictionary, topN: int)
    ensures ToDictionaryEntries(a + b, vec, dict, topN) == ToDictionaryEntries(a, vec, dict, topN) + ToDictionaryEntries(b, vec, dict, topN)
  {
    LookUpAppend(a, b, dict);
    var pa, pb := LookUp(dict, a), LookUp(dict, b);
    var whole := ToDictionaryEntries(a + b, vec, dict, topN);
    var ea, eb := ToDictionaryEntries(a, vec, dict, topN), ToDictionaryEntries(b, vec, dict, topN);
    assert |whole| == |ea + eb|;
    forall k | 0 <= k < |whole| ensures whole[k] == (ea + eb)[k] {
      if k < |pa| {
        assert (pa + pb)[k] == pa[k];
      } else {
        assert (pa + pb)[k] == pb[k - |pa|];
      }
    }
  }

  lemma {:induction false} LookUpAppend(a: seq<string>, b: seq<string>, dict: Dictionary)
    ensures LookUp(dict, a + b) == LookUp(dict, a) + LookUp(dict, b)
    decreases |a|
  {
    if |a| > 0 {
      assert (a + b)[1..] == a[1..] + b;
      assert (a + b)[0] == a[0];
      LookUpAppend(a[1..], b, dict);
    } else {
      assert a + b == b;
    }
  }

  /** The per-chunk results of `chunked(...).map { it.toDictionaryEntries(...) }`, before flattening. */
  function ChunkEntries(chunks: seq<seq<string>>, vec: Nearest, dict: Dictionary, topN: int): (r: seq<seq<DictionaryEntry>>)
    ensures |r| == |chunks|
  {
    if |chunks| == 0 then []
    else [ToDictionaryEntries(chunks[0], vec, dict, topN)] + ChunkEntries(chunks[1..], vec, dict, topN)
  }

  /** Flattening per-chunk entries gives the entries of the flattened chunks. */
  lemma {:induction false} FlattenChunkEntries(chunks: seq<seq<string>>, vec: Nearest, dict: Dictionary, topN: int)
    ensures Flatten(ChunkEntries(chunks, vec, dict, topN)) == ToDictionaryEntries(Flatten(chunks), vec, dict, topN)
  {
    if |chunks| > 0 {
      FlattenChunkEntries(chunks[1..], vec, dict, topN);
      ToDictionaryEntriesAppend(chunks[0], Flatten(chunks[1..]), vec, dict, topN);
    }
  }

  /** Chunking does not change the result: for every chunk size the flattened chunks give the whole vocabulary's entries. */
  lemma ChunkingIrrelevant(allWords: seq<string>, chunkSize: nat, vec: Nearest, dict: Dictionary, topN: int)
    requires chunkSize > 0
    ensures Flatten(ChunkEntries(Chunked(allWords, chunkSize), vec, dict, topN)) == ToDictionaryEntries(allWords, vec, dict, topN)
  {
    FlattenChunkEntries(Chunked(allWords, chunkSize), vec, dict, topN);
    FlattenChunked(allWords, chunkSize);
  }

  // ---------------------------------------------------------------------------
  // sortedByDescending { it.word }

  /** Words never increase along the list. */
  predicate SortedByDescendingWord(s: seq<DictionaryEntry>) {
    forall i, j | 0 <= i < j < |s| :: LexLe(s[j].word, s[i].word)
  }

  /** No word in `s` comes after `b`. */
  predicate AllAtMost(s: seq<DictionaryEntry>, b: string) {
    forall k | 0 <= k < |s| :: LexLe(s[k].word, b)
  }

  /** Places `e` before the first entry whose word is not greater, so equal words keep their order. */
  function Insert(e: DictionaryEntry, s: seq<DictionaryEntry>): (r: seq<DictionaryEntry>)
    ensures |r| == |s| + 1
  {
    if |s| == 0 || LexLe(s[0].word, e.word) then [e] + s
    else [s[0]] + Insert(e, s[1..])
  }

  /** A stable sort by descending word, as Kotlin's `sortedByDescending` is. */
  function SortByDescendingWord(s: seq<DictionaryEntry>): (r: seq<DictionaryEntry>)
    ensures |r| == |s|
  {
    if |s| == 0 then [] else Insert(s[0], SortByDescendingWord(s[1..]))
  }

  lemma {:induction false} InsertPermutes(e: DictionaryEntry, s: seq<DictionaryEntry>)
    ensures multiset(Insert(e, s)) == multiset{e} + multiset(s)
  {
    if |s| > 0 && !LexLe(s[0].word, e.word) {
      InsertPermutes(e, s[1..]);
      assert s == [s[0]] + s[1..];
    }
  }

  lemma {:induction false} InsertAtMost(e: DictionaryEntry, s: seq<DictionaryEntry>, b: string)
    requires AllAtMost(s, b) && LexLe(e.word, b)
    ensures AllAtMost(Insert(e, s), b)
  {
    if |s| > 0 && !LexLe(s[0].word, e.word) {
      InsertAtMost(e, s[1..], b);
    }
  }

  lemma {:induction false} InsertSorted(e: DictionaryEntry, s: seq<DictionaryEntry>)
    requires SortedByDescendingWord(s)
    ensures SortedByDescendingWord(Insert(e, s))
  {
    if |s| == 0 {
    } else if LexLe(s[0].word, e.word) {
      forall k | 0 <= k < |s| ensures LexLe(s[k].word, e.word) {
        if k > 0 { LexLeTransitive(s[k].word, s[0].word, e.word); }
      }
    } else {
      LexLeTotal(s[0].word, e.word);
      InsertSorted(e, s[1..]);
      InsertAtMost(e, s[1..], s[0].word);
    }
  }

  /** The sorted list is ordered by descending word and is a permutation of its input. */
  lemma {:induction false} SortByDescendingWordSpec(s: seq<DictionaryEntry>)
    ensures SortedByDescendingWord(SortByDescendingWord(s))
    ensures multiset(SortByDescendingWord(s)) == multiset(s)
  {
    if |s| > 0 {
      SortByDescendingWordSpec(s[1..]);
      InsertSorted(s[0], SortByDescendingWord(s[1..]));
      InsertPermutes(s[0], SortByDescendingWord(s[1..]));
      assert s == [s[0]] + s[1..];
    }
  }

  // ---------------------------------------------------------------------------
  // buildThesaurus

  /** The stored entries and the number of vocabulary words left without one. */
  datatype Thesaurus = Thesaurus(entries: seq<DictionaryEntry>, loss: int)

  /** `buildThesaurus(dictionary, model)` for positive `--chunk-size` and `--top`, run sequentially. */
  function BuildThesaurus(dict: Dictionary, vec: Nearest, allWords: seq<string>, chunkSize: int, topN: int): (t: Thesaurus)
    requires chunkSize > 0 && topN > 0
    ensures |t.entries| <= |allWords| && t.loss >= 0
  {
    ChunkingIrrelevant(allWords, chunkSize, vec, dict, topN);
    var vocabEntries := SortByDescendingWord(Flatten(ChunkEntries(Chunked(allWords, chunkSize), vec, dict, topN)));
    Thesaurus(vocabEntries, |allWords| - |vocabEntries|)
  }

  /**
   * The built thesaurus holds, sorted by descending word, exactly the entries
   * of the known vocabulary words; the loss is the number of words the
   * dictionary does not know, so it is never negative.
   */
  lemma BuildThesaurusSpec(dict: Dictionary, vec: Nearest, allWords: seq<string>, chunkSize: int, topN: int)
    requires chunkSize > 0 && topN > 0
    ensures var t := BuildThesaurus(dict, vec, allWords, chunkSize, topN);
      && SortedByDescendingWord(t.entries)
      && multiset(t.entries) == multiset(ToDictionaryEntries(allWords, vec, dict, topN))
      && t.loss == |allWords| - |t.entries|
      && t.loss == |Filter(allWords, w => w !in dict)|
      && t.loss >= 0
  {
    ChunkingIrrelevant(allWords, chunkSize, vec, dict, topN);
    var flat := ToDictionaryEntries(allWords, vec, dict, topN);
    SortByDescendingWordSpec(flat);
    ToDictionaryEntriesSpec(allWords, vec, dict, topN);
    PresentAndAbsent(dict, allWords);
    assert |SortByDescendingWord(flat)| == |flat| by {
      assert |multiset(SortByDescendingWord(flat))| == |multiset(flat)|;
    }
  }

  /** The chunk size decides nothing about the result. */
  lemma ChunkSizeIrrelevant(dict: Dictionary, vec: Nearest, allWords: seq<string>, c1: int, c2: int, topN: int)
    requires c1 > 0 && c2 > 0 && topN > 0
    ensures BuildThesaurus(dict, vec, allWords, c1, topN) == BuildThesaurus(dict, vec, allWords, c2, topN)
  {
    ChunkingIrrelevant(allWords, c1, vec, dict, topN);
    ChunkingIrrelevant(allWords, c2, vec, dict, topN);
  }
}
