/** Fetching pages, turning a page into a document, and the scrape loop
    that ties the two together. The HTTP exchange and the two content
    extractors are outside the model: the outcome of each request is an
    input, and the extractors are function parameters. */
module Extractor {

  import opened Wrappers
  import opened Text
  import opened Dewrapping
  import opened ScrapingModels

  /** What one `GET` produced: an exception before any response (with its
      `str(e)`), or a response status together with the body read as UTF-8,
      which may itself fail with an exception message. */
  datatype HttpAttempt =
    | Raised(message: string)
    | Responded(status: int, body: Result<string, string>)

  const StatusOk: int := 200
  const NoContent: string := "No content extracted"

  /** The details of the error raised for a non-200 response. */
  function StatusDetails(status: int): (d: string)
    ensures |d| > 7 && d[..7] == "Status "
  {
    "Status " + IntToDecimal(status)
  }

  /** `fetch_url`: the page text for a 200 response; otherwise an
      extraction error for the URL carrying the status line or the
      exception message. */
  function FetchUrl(url: string, attempt: HttpAttempt): (r: Result<string, ExtractionError>)
    ensures r.Success? <==> attempt.Responded? && attempt.status == StatusOk && attempt.body.Success?
    ensures r.Success? ==> r.value == attempt.body.value
    ensures r.Failure? ==> r.error.url == url
    ensures attempt.Raised? ==> r == Failure(ExtractionError(url, attempt.message))
    ensures attempt.Responded? && attempt.status == StatusOk && attempt.body.Failure? ==>
      r == Failure(ExtractionError(url, attempt.body.error))
    ensures attempt.Responded? && attempt.status != StatusOk ==>
      r == Failure(ExtractionError(url, StatusDetails(attempt.status)))
  {
    match attempt
    case Raised(message) => Failure(ExtractionError(url, message))
    case Responded(status, body) =>
      if status == StatusOk then
        match body
        case Success(html) => Success(html)
        case Failure(message) => Failure(ExtractionError(url, message))
      else
        Failure(ExtractionError(url, StatusDetails(status)))
  }

  /** A rejected status can be read back from the error details. */
  lemma FetchStatusRecoverable(url: string, status: int, body: Result<string, string>)
    requires status != StatusOk
    ensures var r := FetchUrl(url, Responded(status, body));
      && r.Failure?
      && r.error.details[..7] == "Status "
      && DecimalToInt(r.error.details[7..]) == Some(status)
  {
    var d := StatusDetails(status);
    assert d[7..] == IntToDecimal(status);
    DecimalRoundTrip(status);
  }

  /** `format_content`: extract the main text (`extract`) and the page
      metadata (`metadataOf`, the metadata extractor's dictionary) from the
      HTML; no text is an error, otherwise the text is de-wrapped and paired
      with the six metadata fields. */
  function FormatContent(
    url: string,
    html: string,
    extract: (string, string) -> Option<string>,
    metadataOf: string -> map<string, Option<string>>
  ): (r: Result<Document, ExtractionError>)
    ensures r.Failure? <==> extract(html, url).None?
    ensures r.Failure? ==> r.error == ExtractionError(url, NoContent)
    ensures r.Success? ==> r.value.content == Dewrap(extract(html, url).value)
    ensures r.Success? ==> r.value.metadata.url == url
  {
    match extract(html, url)
    case None => Failure(ExtractionError(url, NoContent))
    case Some(text) =>
      var md := metadataOf(html);
      Success(Document(
        Dewrap(text),
        ArticleMetadata(url, Get(md, "hostname"), Get(md, "title"), Get(md, "description"),
                        Get(md, "license"), Get(md, "author"))))
  }

  /** The document's metadata holds the URL and, for each other key, the
      metadata extractor's value or `None` when it had none. */
  lemma FormatContentMetadata(
    url: string,
    html: string,
    extract: (string, string) -> Option<string>,
    metadataOf: string -> map<string, Option<string>>
  )
    requires FormatContent(url, html, extract, metadataOf).Success?
    ensures var d := AsDict(FormatContent(url, html, extract, metadataOf).value.metadata);
      && d["url"] == Some(url)
      && forall k :: k in MetadataKeys && k != "url" ==> d[k] == Get(metadataOf(html), k)
  {
  }

  /** A formatted document carries no line break the substitution would
      still join, so formatting it again would not change the text. */
  lemma FormattedTextIsJoined(
    url: string,
    html: string,
    extract: (string, string) -> Option<string>,
    metadataOf: string -> map<string, Option<string>>
  )
    requires FormatContent(url, html, extract, metadataOf).Success?
    ensures var d := FormatContent(url, html, extract, metadataOf).value;
      && Dewrap(d.content) == d.content
      && forall p :: !SoftBreakAt(d.content, p)
  {
    var text := extract(html, url).value;
    DewrapIdempotent(text);
    forall p ensures !SoftBreakAt(Dewrap(text), p) {
      DewrapLeavesNoMatch(text, p);
    }
  }

  /** The pages that were fetched, in input order: each URL paired with its
      text, failed fetches left out. */
  function Fetched(urls: seq<string>, attempts: seq<HttpAttempt>): (pages: seq<(string, string)>)
    requires |urls| == |attempts|
    ensures |pages| <= |urls|
  {
    if urls == [] then []
    else
      var rest := Fetched(urls[1..], attempts[1..]);
      match FetchUrl(urls[0], attempts[0])
      case Success(html) => [(urls[0], html)] + rest
      case Failure(_) => rest
  }

  /** One request gives its page when it succeeds and nothing otherwise. */
  lemma FetchedOne(url: string, attempt: HttpAttempt)
    ensures Fetched([url], [attempt]) ==
      if FetchUrl(url, attempt).Success? then [(url, FetchUrl(url, attempt).value)] else []
  {
    assert [url][1..] == [] && [attempt][1..] == [];
  }

  /** The pages of two runs of requests are the pages of each, one after
      the other: pages keep the input order, one per successful request,
      repeated URLs included. */
  lemma {:induction false} FetchedAppend(u1: seq<string>, a1: seq<HttpAttempt>, u2: seq<string>, a2: seq<HttpAttempt>)
    requires |u1| == |a1| && |u2| == |a2|
    ensures Fetched(u1 + u2, a1 + a2) == Fetched(u1, a1) + Fetched(u2, a2)
  {
    if u1 != [] {
      assert (u1 + u2)[0] == u1[0] && (a1 + a2)[0] == a1[0];
      assert (u1 + u2)[1..] == u1[1..] + u2 && (a1 + a2)[1..] == a1[1..] + a2;
      FetchedAppend(u1[1..], a1[1..], u2, a2);
      var restA, restB := Fetched(u1[1..], a1[1..]), Fetched(u2, a2);
      var here := if FetchUrl(u1[0], a1[0]).Success? then [(u1[0], FetchUrl(u1[0], a1[0]).value)] else [];
      assert Fetched(u1 + u2, a1 + a2) == here + (restA + restB);
      assert Fetched(u1, a1) == here + restA;
      assert here + (restA + restB) == (here + restA) + restB;
    } else {
      assert u1 + u2 == u2 && a1 + a2 == a2;
    }
  }

  /** A page is fetched exactly when some request for its URL returned its
      text. */
  lemma {:induction false} FetchedIffFetchSucceeds(
    urls: seq<string>,
    attempts: seq<HttpAttempt>,
    url: string,
    html: string
  )
    requires |urls| == |attempts|
    ensures (url, html) in Fetched(urls, attempts) <==>
      exists j :: 0 <= j < |urls| && urls[j] == url && FetchUrl(urls[j], attempts[j]) == Success(html)
  {
    if urls != [] {
      var us, ats := urls[1..], attempts[1..];
      FetchedIffFetchSucceeds(us, ats, url, html);
      if exists j :: 0 <= j < |us| && us[j] == url && FetchUrl(us[j], ats[j]) == Success(html) {
        var j :| 0 <= j < |us| && us[j] == url && FetchUrl(us[j], ats[j]) == Success(html);
        assert urls[j + 1] == url && attempts[j + 1] == ats[j];
      }
      if exists j :: 0 <= j < |urls| && urls[j] == url && FetchUrl(urls[j], attempts[j]) == Success(html) {
        var j :| 0 <= j < |urls| && urls[j] == url && FetchUrl(urls[j], attempts[j]) == Success(html);
        if j > 0 {
          assert us[j - 1] == url && ats[j - 1] == attempts[j];
        }
      }
    }
  }

  /** When every request fails, nothing is fetched. */
  lemma {:induction false} AllFailedFetchNothing(urls: seq<string>, attempts: seq<HttpAttempt>)
    requires |urls| == |attempts|
    requires forall j :: 0 <= j < |urls| ==> FetchUrl(urls[j], attempts[j]).Failure?
    ensures Fetched(urls, attempts) == []
  {
    if urls != [] {
      assert FetchUrl(urls[0], attempts[0]).Failure?;
      AllFailedFetchNothing(urls[1..], attempts[1..]);
    }
  }

  /** `format_content` succeeded on `page` and produced `doc`. */
  predicate FormatsTo(
    page: (string, string),
    doc: Document,
    extract: (string, string) -> Option<string>,
    metadataOf: string -> map<string, Option<string>>
  )
  {
    FormatContent(page.0, page.1, extract, metadataOf) == Success(doc)
  }

  /** `docs` are the formatted `pages`, one for one. */
  predicate FormatsAll(
    pages: seq<(string, string)>,
    docs: seq<Document>,
    extract: (string, string) -> Option<string>,
    metadataOf: string -> map<string, Option<string>>
  )
  {
    |docs| == |pages| && forall k :: 0 <= k < |pages| ==> FormatsTo(pages[k], docs[k], extract, metadataOf)
  }

  /** `format_content` fails on the `k`-th page with `e` after succeeding on
      every earlier one. */
  predicate FirstFailureAt(
    pages: seq<(string, string)>,
    k: int,
    e: ExtractionError,
    extract: (string, string) -> Option<string>,
    metadataOf: string -> map<string, Option<string>>
  )
  {
    && 0 <= k < |pages|
    && FormatContent(pages[k].0, pages[k].1, extract, metadataOf) == Failure(e)
    && forall j :: 0 <= j < k ==> FormatContent(pages[j].0, pages[j].1, extract, metadataOf).Success?
  }

  /** `scrape_urls`, given the outcome of each request: walk the URLs in
      order, skip the ones whose request failed and format the page of each
      other one. An error from `format_content` is not caught, so the first
      page that cannot be formatted ends the scrape with its error. */
  function ScrapeUrls(
    urls: seq<string>,
    attempts: seq<HttpAttempt>,
    extract: (string, string) -> Option<string>,
    metadataOf: string -> map<string, Option<string>>
  ): (r: Result<seq<Document>, ExtractionError>)
    requires |urls| == |attempts|
    ensures r.Success? ==> |r.value| == |Fetched(urls, attempts)|
  {
    if urls == [] then Success([])
    else
      var rest := ScrapeUrls(urls[1..], attempts[1..], extract, metadataOf);
      match FetchUrl(urls[0], attempts[0])
      case Failure(_) => rest
      case Success(html) =>
        match FormatContent(urls[0], html, extract, metadataOf)
        case Failure(e) => Failure(e)
        case Success(doc) =>
          match rest
          case Failure(e) => Failure(e)
          case Success(docs) => Success([doc] + docs)
  }

  /** A successful scrape holds one formatted document per fetched page, in
      order. */
  lemma {:induction false} ScrapeFormatsEveryPage(
    urls: seq<string>,
    attempts: seq<HttpAttempt>,
    extract: (string, string) -> Option<string>,
    metadataOf: string -> map<string, Option<string>>
  )
    requires |urls| == |attempts|
    requires ScrapeUrls(urls, attempts, extract, metadataOf).Success?
    ensures FormatsAll(Fetched(urls, attempts), ScrapeUrls(urls, attempts, extract, metadataOf).value, extract, metadataOf)
  {
    if urls != [] {
      var us, ats := urls[1..], attempts[1..];
      var rest := ScrapeUrls(us, ats, extract, metadataOf);
      if FetchUrl(urls[0], attempts[0]).Success? {
        var html := FetchUrl(urls[0], attempts[0]).value;
        assert FormatContent(urls[0], html, extract, metadataOf).Success?;
        assert rest.Success?;
        ScrapeFormatsEveryPage(us, ats, extract, metadataOf);
        var doc := FormatContent(urls[0], html, extract, metadataOf).value;
        var pages, docs := Fetched(urls, attempts), ScrapeUrls(urls, attempts, extract, metadataOf).value;
        assert pages == [(urls[0], html)] + Fetched(us, ats);
        assert docs == [doc] + rest.value;
        forall k | 0 <= k < |pages| ensures FormatsTo(pages[k], docs[k], extract, metadataOf) {
          if k > 0 {
            assert pages[k] == Fetched(us, ats)[k - 1] && docs[k] == rest.value[k - 1];
          }
        }
      } else {
        ScrapeFormatsEveryPage(us, ats, extract, metadataOf);
      }
    }
  }

  /** A failed scrape reports the error of the first fetched page that
      cannot be formatted. */
  lemma {:induction false} ScrapeStopsAtFirstFailure(
    urls: seq<string>,
    attempts: seq<HttpAttempt>,
    extract: (string, string) -> Option<string>,
    metadataOf: string -> map<string, Option<string>>
  )
    requires |urls| == |attempts|
    requires ScrapeUrls(urls, attempts, extract, metadataOf).Failure?
    ensures exists k :: FirstFailureAt(Fetched(urls, attempts), k, ScrapeUrls(urls, attempts, extract, metadataOf).error, extract, metadataOf)
  {
    var us, ats := urls[1..], attempts[1..];
    var rest := ScrapeUrls(us, ats, extract, metadataOf);
    var e := ScrapeUrls(urls, attempts, extract, metadataOf).error;
    var pages := Fetched(urls, attempts);
    if FetchUrl(urls[0], attempts[0]).Success? {
      var html := FetchUrl(urls[0], attempts[0]).value;
      assert pages == [(urls[0], html)] + Fetched(us, ats);
      if FormatContent(urls[0], html, extract, metadataOf).Failure? {
        assert FirstFailureAt(pages, 0, e, extract, metadataOf);
      } else {
        assert rest.Failure? && rest.error == e;
        ScrapeStopsAtFirstFailure(us, ats, extract, metadataOf);
        var k :| FirstFailureAt(Fetched(us, ats), k, e, extract, metadataOf);
        assert pages[k + 1] == Fetched(us, ats)[k];
        forall j | 0 <= j < k + 1
          ensures FormatContent(pages[j].0, pages[j].1, extract, metadataOf).Success?
        {
          if j > 0 {
            assert pages[j] == Fetched(us, ats)[j - 1];
          }
        }
        assert FirstFailureAt(pages, k + 1, e, extract, metadataOf);
      }
    } else {
      ScrapeStopsAtFirstFailure(us, ats, extract, metadataOf);
    }
  }

  /** The scrape fails exactly when some fetched page cannot be formatted. */
  lemma {:induction false} ScrapeFailsIffSomePageFails(
    urls: seq<string>,
    attempts: seq<HttpAttempt>,
    extract: (string, string) -> Option<string>,
    metadataOf: string -> map<string, Option<string>>
  )
    requires |urls| == |attempts|
    ensures var pages := Fetched(urls, attempts);
      ScrapeUrls(urls, attempts, extract, metadataOf).Failure? <==>
        exists k :: 0 <= k < |pages| && FormatContent(pages[k].0, pages[k].1, extract, metadataOf).Failure?
  {
    var pages := Fetched(urls, attempts);
    var r := ScrapeUrls(urls, attempts, extract, metadataOf);
    if r.Failure? {
      ScrapeStopsAtFirstFailure(urls, attempts, extract, metadataOf);
      var k :| FirstFailureAt(pages, k, r.error, extract, metadataOf);
      assert 0 <= k < |pages| && FormatContent(pages[k].0, pages[k].1, extract, metadataOf).Failure?;
    } else {
      ScrapeFormatsEveryPage(urls, attempts, extract, metadataOf);
      forall k | 0 <= k < |pages| ensures FormatContent(pages[k].0, pages[k].1, extract, metadataOf).Success? {
        assert FormatsTo(pages[k], r.value[k], extract, metadataOf);
      }
    }
  }
}
