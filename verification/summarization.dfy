/** What the language model returns for one article. The model call itself
    is outside this project; only the shape of its answer matters here. */
module Summarization {

  /** A short summary and the article's broad topics, as free-form names. */
  datatype ArticleSummarization = ArticleSummarization(summary: string, topics: seq<string>)
}
