/** The `Article` record of src/main/kotlin/parser/Article.kt and the checks of its `init` block. */
module Articles {
  import opened Wrappers
  import opened KotlinText

  /** An article of the dump: its id, title, text, raw text (possibly null) and time stamp. */
  datatype Article = Article(id: int, title: string, text: string, raw: Option<string>, timestamp: string) {
    /** The three `require` checks of `init`; `id` and `raw` are unconstrained. */
    predicate Valid() {
      !IsBlank(title) && !IsBlank(text) && !IsBlank(timestamp)
    }
  }

  /** The `require` that failed; each one throws an IllegalArgumentException. */
  datatype ArticleError = BlankTitle | BlankText | BlankTimestamp

  /** The constructor: the checks run in order, title, then text, then time stamp. */
  function NewArticle(id: int, title: string, text: string, raw: Option<string>, timestamp: string): (r: Result<Article, ArticleError>)
    ensures r.Success? <==> !IsBlank(title) && !IsBlank(text) && !IsBlank(timestamp)
    ensures r.Failure? ==> (r.error == BlankTitle <==> IsBlank(title))
    ensures r.Failure? ==> (r.error == BlankText <==> !IsBlank(title) && IsBlank(text))
    ensures r.Failure? ==> (r.error == BlankTimestamp <==> !IsBlank(title) && !IsBlank(text) && IsBlank(timestamp))
  {
    if IsBlank(title) then Failure(BlankTitle)
    else if IsBlank(text) then Failure(BlankText)
    else if IsBlank(timestamp) then Failure(BlankTimestamp)
    else Success(Article(id, title, text, raw, timestamp))
  }

  /** Every constructed article satisfies the checks, keeps its fields, and every such article can be constructed. */
  lemma NewArticleValid(a: Article)
    ensures a.Valid() <==> NewArticle(a.id, a.title, a.text, a.raw, a.timestamp) == Success(a)
  {
  }

  /** The empty string is blank, so an empty title, text or time stamp is refused. */
  lemma EmptyFieldsRefused(id: int, title: string, text: string, raw: Option<string>, timestamp: string)
    requires title == "" || text == "" || timestamp == ""
    ensures NewArticle(id, title, text, raw, timestamp).Failure?
  {
  }
}
