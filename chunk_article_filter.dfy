/**
 * The buffering of src/main/kotlin/parser/ChunkArticleFilter.kt. The wiki
 * rendering and the regular-expression clean-up happen before the model
 * starts: `process` receives the cleaned text. The two callbacks become the
 * fields `emitted` and `skipped`, which record what each one received.
 */
module ChunkArticleFilters {
  import opened Wrappers
  import opened KotlinText
  import opened KotlinCollections
  import opened Articles

  /** Every chunk holds at least one and at most `chunkSize + 1` articles. */
  ghost predicate ChunksBounded(chunks: seq<seq<Article>>, chunkSize: int) {
    forall k | 0 <= k < |chunks| :: 0 < |chunks[k]| <= chunkSize + 1
  }

  /** Emitting a non-empty chunk of at most `chunkSize + 1` articles keeps the chunks bounded. */
  lemma EmitKeepsBounds(chunks: seq<seq<Article>>, chunk: seq<Article>, chunkSize: int)
    requires ChunksBounded(chunks, chunkSize) && 0 < |chunk| <= chunkSize + 1
    ensures ChunksBounded(chunks + [chunk], chunkSize)
  {
    assert forall k | 0 <= k < |chunks| :: (chunks + [chunk])[k] == chunks[k];
  }

  class ChunkArticleFilter {
    const chunkSize: int
    /** The articles waiting to be handed on. */
    var buffer: seq<Article>
    /** The chunks passed to `onChunkParsed`, in order. */
    var emitted: seq<seq<Article>>
    /** The ids passed to `onArticleSkipped`, in order. */
    var skipped: seq<int>
    /** Every article appended to the buffer so far, in arrival order. */
    ghost var accepted: seq<Article>

    /** The buffer never holds more than a chunk, and no accepted article is lost or reordered. */
    ghost predicate Valid()
      reads this
    {
      && chunkSize > 0
      && |buffer| <= chunkSize
      && Flatten(emitted) + buffer == accepted
      && ChunksBounded(emitted, chunkSize)
      && (forall k | 0 <= k < |accepted| :: accepted[k].Valid())
    }

    /** `ChunkArticleFilter(chunkSize, ...)`, whose `init` requires a positive chunk size. */
    constructor (chunkSize: int)
      requires chunkSize > 0
      ensures Valid()
      ensures this.chunkSize == chunkSize
      ensures buffer == [] && emitted == [] && skipped == [] && accepted == []
    {
      this.chunkSize := chunkSize;
      buffer := [];
      emitted := [];
      skipped := [];
      accepted := [];
    }

    /** `onFlush()`: whatever is buffered goes out as a last, possibly short, chunk. */
    method OnFlush()
      requires Valid()
      modifies this
      ensures Valid()
      ensures buffer == []
      ensures emitted == old(emitted) + (if |old(buffer)| > 0 then [old(buffer)] else [])
      ensures skipped == old(skipped) && accepted == old(accepted)
      ensures Flatten(emitted) == accepted
    {
      if |buffer| > 0 {
        FlattenSnoc(emitted, buffer);
        EmitKeepsBounds(emitted, buffer, chunkSize);
        emitted := emitted + [buffer];
      }
      buffer := [];
      assert Flatten(emitted) + buffer == Flatten(emitted);
    }

    /**
     * `process(article, siteinfo)` for an article with the given id, title and
     * time stamp whose cleaned text is `cleaned`. A blank text is reported as
     * skipped. Otherwise the article is built with the trimmed title and the
     * text, newlines turned to spaces, as both text and raw text; if building
     * it throws, `thrown` holds the failed check and nothing changes. A full
     * buffer plus this article goes out as one chunk.
     */
    method Process(id: int, title: string, cleaned: string, timestamp: string) returns (thrown: Option<ArticleError>)
      requires Valid()
      modifies this
      ensures Valid()
      ensures var s := ReplaceChar(cleaned, '\n', ' ');
        var made := NewArticle(id, Trim(title), s, Some(s), timestamp);
        && (IsBlank(s) ==>
              && thrown.None?
              && skipped == old(skipped) + [id]
              && buffer == old(buffer) && emitted == old(emitted) && accepted == old(accepted))
        && (!IsBlank(s) && made.Failure? ==>
              && thrown == Some(made.error)
              && skipped == old(skipped)
              && buffer == old(buffer) && emitted == old(emitted) && accepted == old(accepted))
        && (!IsBlank(s) && made.Success? ==>
              && thrown.None?
              && skipped == old(skipped)
              && accepted == old(accepted) + [made.value]
              && (|old(buffer)| < chunkSize ==> buffer == old(buffer) + [made.value] && emitted == old(emitted))
              && (|old(buffer)| == chunkSize ==> buffer == [] && emitted == old(emitted) + [old(buffer) + [made.value]]))
    {
      var s := ReplaceChar(cleaned, '\n', ' ');
      if IsBlank(s) || |s| == 0 {
        skipped := skipped + [id];
        return None;
      }
      var made := NewArticle(id, Trim(title), s, Some(s), timestamp);
      if made.Failure? {
        return Some(made.error);
      }
      var article := made.value;
      accepted := accepted + [article];
      buffer := buffer + [article];
      if |buffer| > chunkSize {
        FlattenSnoc(emitted, buffer);
        EmitKeepsBounds(emitted, buffer, chunkSize);
        emitted := emitted + [buffer];
        buffer := [];
      }
      return None;
    }
  }
}
