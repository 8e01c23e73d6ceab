/** The records the scraper produces: article metadata, the extraction
    error and the document that pairs extracted text with its metadata. */
module ScrapingModels {

  import opened Wrappers

  /** The metadata of one article. Apart from the URL every field may be
      missing, since each is read with `dict.get` from what the metadata
      extractor found. */
  datatype ArticleMetadata = ArticleMetadata(
    url: string,
    hostname: Option<string>,
    title: Option<string>,
    description: Option<string>,
    license: Option<string>,
    author: Option<string>
  )

  /** A failed extraction: the URL and what went wrong. */
  datatype ExtractionError = ExtractionError(url: string, details: string)
  {
    /** The exception's message, `str(error)`. */
    function Message(): (m: string)
      ensures |m| == |url| + |details| + 19
      ensures m[..17] == "Error extracting " && m[17..17 + |url|] == url
      ensures m[|m| - |details|..] == details
    {
      "Error extracting " + url + ": " + details
    }
  }

  /** Extracted text together with its metadata. */
  datatype Document = Document(content: string, metadata: ArticleMetadata)

  const MetadataKeys: set<string> := {"url", "hostname", "title", "description", "license", "author"}

  /** The metadata as the dictionary it is at run time: six keys, `None`
      for a missing field. */
  function AsDict(m: ArticleMetadata): (d: map<string, Option<string>>)
    ensures d.Keys == MetadataKeys
    ensures d["url"] == Some(m.url)
  {
    map["url" := Some(m.url), "hostname" := m.hostname, "title" := m.title,
        "description" := m.description, "license" := m.license, "author" := m.author]
  }

  /** The dictionary determines the metadata: reading the six keys back
      gives the record. */
  lemma AsDictRoundTrip(m: ArticleMetadata)
    ensures var d := AsDict(m);
      ArticleMetadata(d["url"].value, d["hostname"], d["title"], d["description"], d["license"], d["author"]) == m
  {
  }

  /** `": "` starts at index `i` of `s`. */
  predicate ColonAt(s: string, i: int)
  {
    0 <= i && i + 1 < |s| && s[i] == ':' && s[i + 1] == ' '
  }

  /** The tail of a message after the fixed prefix. */
  lemma MessageTail(e: ExtractionError)
    ensures e.Message()[17..] == e.url + ": " + e.details
  {
  }

  /** Equal messages: a URL without `": "` is not shorter than the other. */
  lemma UrlNotShorter(e1: ExtractionError, e2: ExtractionError)
    requires forall i :: 0 <= i < |e2.url| ==> !ColonAt(e2.url, i)
    requires e1.Message() == e2.Message()
    ensures |e1.url| >= |e2.url|
  {
    MessageTail(e1);
    MessageTail(e2);
    var t1, t2 := e1.url + ": " + e1.details, e2.url + ": " + e2.details;
    assert t1 == t2;
    var n1 := |e1.url|;
    if n1 < |e2.url| {
      assert t1[n1] == ':' && t1[n1 + 1] == ' ';
      assert ColonAt(e2.url, n1) by {
        assert e2.url[n1] == t2[n1] && e2.url[n1 + 1] == t2[n1 + 1];
      }
    }
  }

  /** The message determines the error, as long as the URLs contain no
      `": "` (the first one after the prefix then ends the URL). */
  lemma MessageDeterminesError(e1: ExtractionError, e2: ExtractionError)
    requires forall i :: 0 <= i < |e1.url| ==> !ColonAt(e1.url, i)
    requires forall i :: 0 <= i < |e2.url| ==> !ColonAt(e2.url, i)
    requires e1.Message() == e2.Message()
    ensures e1 == e2
  {
    UrlNotShorter(e1, e2);
    UrlNotShorter(e2, e1);
    MessageTail(e1);
    MessageTail(e2);
    var t1, t2 := e1.url + ": " + e1.details, e2.url + ": " + e2.details;
    var n := |e1.url|;
    assert e1.url == t1[..n] == t2[..n] == e2.url;
    assert e1.details == t1[n + 2..] == t2[n + 2..] == e2.details;
  }
}
