/** The article record every source adapter produces (`RawArticles`), and its scored form. */
module Articles {
  /** The three content providers an article can come from. */
  datatype Source = Wikipedia | NewsAPI | HackerNews

  datatype RawArticle = RawArticle(source: Source, title: string, url: string, content: string)

  /** An article after ranking: the same record with a relevance score added. */
  datatype ScoredArticle = ScoredArticle(article: RawArticle, score: nat)
}
