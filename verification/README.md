# News scraper core, modelled in Dafny

The modelled program scrapes news articles and stores them, with
summaries and topics, in a vector database. This project models the
program's deterministic core and proves properties about it:

- **URL validation** (`UrlValidation`). Validation strips each input,
  removes duplicates, and keeps the inputs that match `URL_PATTERN`. If
  none match, it fails with "No valid URLs provided.". Otherwise it adds
  `https://` to each kept input that does not start with `http`.
  - The regular expression is given twice: once as a grammar and once as a
    flat recogniser. A lemma proves that both accept the same strings.
  - Python set iteration order is not fixed. The result is therefore
    specified as "one of the enumerations of the valid set".
- **Extraction** (`Extractor`, `Dewrapping`, `ScrapingModels`).
  - `fetch_url` classifies a response: 200 gives the text; any other status
    or an exception gives an `ExtractionError`.
  - `format_content` fails with "No content extracted" when there is no
    text. Otherwise it re-joins wrapped lines with the substitution
    `(\w|[*_])\n(?![\n\s-])` → `\1 ` and builds the six-field metadata.
  - `scrape_urls` skips failed fetches, formats the other pages in order,
    and stops at the first page that cannot be formatted.
  - The HTTP exchange is an input: one `HttpAttempt` per URL. The two
    trafilatura extractors are function parameters.
- **Storage** (`Storage`, `StorageModels`, `Collections`, `Summarization`,
  `Settings`).
  - Topic codes are the name in lower case with spaces turned into `-`.
  - `metadata_filter_none` drops missing values and excluded keys.
  - `add` writes three records: the article, its summary, and its topics.
  - `get_topics` reads the topic dictionary back.
  - `get_all` rebuilds every article. It fails with `UnboundLocalError`
    when the first article has no summary. A later article without a
    summary reuses the previous article's summary.
  - `search` keeps hits at distance ≤ threshold that have a stored
    summary, in query order.
  - `Article.__str__` never shows the content.
  - A database collection is modelled as an ordered list of records with
    unique ids. An upsert replaces the record with the same id in place, or
    appends a new one. A lookup by id returns that record. This listing order is an assumption
    about the database, recorded under "## Left out".

`Text` holds Python string behaviour the core relies on: `str.strip`,
ASCII `lower`, `", ".join` and `split(", ")`, and `str(int)`.

## Model

| member | source | states |
|---|---|---|
| Text.StripTrims | src/scraping/utils.py:11 | `strip` removes only whitespace, from both ends, and leaves no whitespace at either end |
| Text.JoinSplit | src/storage/client.py:125 | joining the pieces of `split(", ")` with `", "` gives the string back |
| Text.SplitJoin | src/storage/client.py:72 | splitting a `", "`-join gives back a non-empty list whose items contain no `", "` |
| UrlValidation.UrlShapedIffLanguage | src/scraping/utils.py:4-6 | the flat recogniser accepts exactly the language of `URL_PATTERN`: optional `http://`/`https://`, dotted host labels, optional path that does not end in `.`, `,` or `:` |
| UrlValidation.HostIffShaped | src/scraping/utils.py:5 | `[\w\-]+(\.[\w\-]+)+` holds exactly for label/dot strings with at least one dot, none at either end and no two in a row |
| UrlValidation.DotLabelsIffShaped | src/scraping/utils.py:5 | `(\.[\w\-]+)+` is characterised by its characters, in both directions |
| UrlValidation.HostPathFromIff | src/scraping/utils.py:5 | backtracking over the host/path boundary succeeds exactly when some split leaves a host before it and a path after it |
| UrlValidation.UrlShapedIffSplits | src/scraping/utils.py:5 | the recogniser holds exactly when a scheme/host/path split exists |
| UrlValidation.MatchShape | src/scraping/utils.py:5 | a string the end-anchored recogniser accepts has no whitespace and contains a host with a dot |
| UrlValidation.PatternMatchShape | src/scraping/utils.py:4-6 | a string `URL_PATTERN.match` accepts contains no space, has no whitespace except possibly a final newline (Python's `$`), and contains a host with a dot |
| UrlValidation.PatternMatches | src/scraping/utils.py:4-17 | `URL_PATTERN.match` accepts a string exactly when it is in the pattern's grammar, or is such a string followed by one final newline (Python's `$`) |
| UrlValidation.StrippedMatch | src/scraping/utils.py:11-17 | on a stripped string, Python's `$` (which may also match before a final newline) changes nothing |
| UrlValidation.NotAUrlIsRejected | src/scraping/utils.py:5 | `"not a url"` does not match |
| UrlValidation.KeepMatching | src/scraping/utils.py:16-20 | the kept entries are exactly the visited entries that match, and they stay distinct |
| UrlValidation.AddSchemes | src/scraping/utils.py:29 | one output per kept entry; every output starts with `http`; an entry is kept unchanged exactly when it already starts with `http`, otherwise the output is `https://` followed by the entry |
| UrlValidation.PartitionByPattern | src/scraping/utils.py:12-20 | the loop visits every element of the deduplicated set once, in some order, and keeps the matching ones in that order |
| UrlValidation.ValidateUrls | src/scraping/utils.py:9-32 | the result is one of the outcomes Python may produce; it fails exactly when no stripped input matches; otherwise it has one output per distinct valid input, and every output matches the pattern |
| UrlValidation.ValidationContents | src/scraping/utils.py:11-32 | whatever the set order: the error exactly when nothing is valid; otherwise each output comes from a valid input, every valid input yields an output, and the count equals the number of distinct valid inputs |
| UrlValidation.AddSchemeKeepsMatch | src/scraping/utils.py:27-29 | putting `https://` in front of a matching URL that does not start with `http` keeps it matching |
| UrlValidation.OutputsMatch | src/scraping/utils.py:11-32 | every URL `validate_urls` returns matches the URL pattern |
| UrlValidation.ValidateDuplicates | src/scraping/utils.py:11-12 | `"example.com"` and `" example.com\n"` give the single output `"https://example.com"` |
| UrlValidation.ValidateDropsInvalid | src/scraping/utils.py:16-29 | `["not a url", "good.com"]` gives `["https://good.com"]` |
| UrlValidation.ValidateMayRepeat | src/scraping/utils.py:12-29 | deduplication happens before the scheme is added, so `"x.com"` and `"https://x.com"` give `"https://x.com"` twice |
| UrlValidation.HttpPrefixIsNotAScheme | src/scraping/utils.py:29 | `"httpbin.org"` starts with `http` and gets no scheme |
| Dewrapping.Dewrap | src/scraping/extractor.py:45 | the de-wrapped text has the same length, and at every position it follows the per-position rule: a newline becomes a space exactly when the pattern matches on the character before it |
| Dewrapping.SubstituteFromIsPointwise | src/scraping/extractor.py:45 | the left-to-right substitution agrees with a per-position rule: a newline becomes a space exactly when the pattern matches on the character before it |
| Dewrapping.DewrapOnlyJoinsLines | src/scraping/extractor.py:44-45 | only newlines change, only into spaces, and exactly those after a word character, `*` or `_` and not before a newline, whitespace or `-` |
| Dewrapping.DewrapKeepsParagraphs | src/scraping/extractor.py:44-45 | a blank line (two newlines) survives |
| Dewrapping.DewrapKeepsListItems | src/scraping/extractor.py:44-45 | a newline before `-` survives |
| Dewrapping.DewrapJoinsExample | src/scraping/extractor.py:45 | `"a\nb"` becomes `"a b"` |
| Dewrapping.DewrapLeavesNoMatch | src/scraping/extractor.py:45 | no match is left after the substitution |
| Dewrapping.DewrapIdempotent | src/scraping/extractor.py:45 | applying the substitution twice equals applying it once |
| ScrapingModels.AsDict | src/scraping/models.py:4-13 | the metadata dictionary has exactly the six keys, with the URL always present |
| ScrapingModels.AsDictRoundTrip | src/scraping/models.py:4-13 | the dictionary determines the metadata record |
| ScrapingModels.MessageDeterminesError | src/scraping/errors.py:7-10 | `"Error extracting {url}: {details}"` determines the URL and details when the URL contains no `": "` |
| Extractor.FetchUrl | src/scraping/extractor.py:11-22 | success exactly for status 200 with a readable body, returning that body; every failure is an `ExtractionError` for the URL; an exception raised by the request, or by decoding a 200 body, gives its message as the details; any other status gives `Status N` |
| Extractor.FetchStatusRecoverable | src/scraping/extractor.py:15-18 | a non-200 error reads `Status <n>`, and `n` can be parsed back from it |
| Extractor.FormatContent | src/scraping/extractor.py:24-60 | fails exactly when nothing is extracted, with "No content extracted" for the URL; otherwise the content is the de-wrapped text and the metadata URL is the page URL |
| Extractor.FormatContentMetadata | src/scraping/extractor.py:47-55 | each metadata field other than the URL is the extractor's value for that key, or `None` when it is missing |
| Extractor.FormattedTextIsJoined | src/scraping/extractor.py:44-45 | formatted content has no soft break left, so formatting it again changes nothing |
| Extractor.FetchedOne | src/scraping/extractor.py:70-76 | one request gives its page when it succeeds and nothing otherwise |
| Extractor.FetchedAppend | src/scraping/extractor.py:70-76 | the pages of two runs of requests are those of each, one after the other: one page per successful request, in input order, repeated URLs included |
| Extractor.FetchedIffFetchSucceeds | src/scraping/extractor.py:70-76 | a (URL, text) pair reaches the loop exactly when that URL's request returned that text |
| Extractor.AllFailedFetchNothing | src/scraping/extractor.py:72-76 | when every request fails, no page is formatted |
| Extractor.ScrapeUrls | src/scraping/extractor.py:62-81 | a successful scrape has one document per fetched page |
| Extractor.ScrapeFormatsEveryPage | src/scraping/extractor.py:72-81 | a successful scrape holds, in order, the formatted document of every fetched page |
| Extractor.ScrapeStopsAtFirstFailure | src/scraping/extractor.py:72-79 | a failed scrape carries the error of the first fetched page that cannot be formatted; all earlier pages format |
| Extractor.ScrapeFailsIffSomePageFails | src/scraping/extractor.py:72-79 | the scrape fails exactly when some fetched page cannot be formatted |
| Settings.DefaultPassesCheck | src/settings.py:53-58 | the default 0.3 passes the field's bounds; both ends of [0, 1] are accepted and values just outside are rejected |
| StorageModels.Article.Render | src/storage/models.py:16-19 | `str(article)` starts with the id in brackets, ends with the joined topics, and is exactly 21 characters longer than the URL, the summary and the joined topics together |
| StorageModels.RenderShowsId | src/storage/models.py:12-19 | the article's id (its URL) can be read back from between the brackets of `str(article)` when the URL has no `]` |
| StorageModels.RenderIgnoresContent | src/storage/models.py:16-19 | `str(article)` does not depend on the content |
| StorageModels.RenderShowsTopics | src/storage/models.py:16-19 | the topics can be split back from the end of `str(article)` when the list is non-empty and no topic contains `", "` |
| Storage.TopicCode | src/storage/client.py:54 | a code is as long as its name and contains no space |
| Storage.TopicCodeHasNoSeparator | src/storage/client.py:54 | a code contains no `", "` |
| Storage.TopicCodeIdempotent | src/storage/client.py:54 | a code is its own code |
| Storage.TopicCodeIgnoresCase | src/storage/client.py:54 | names that differ only in case have the same code |
| Storage.TopicCodeExample | src/storage/client.py:54 | `"Space Technology"` and `"space technology"` both have code `"space-technology"` |
| Storage.FormatTopicsCodes | src/storage/client.py:52-54 | no more codes than names; the listed codes are exactly the dictionary's keys, and each key is the code of the name stored under it |
| Storage.FormatTopicsCodesKeys | src/storage/client.py:52-54 | the codes are listed in order of first appearance, once each, and are exactly the dictionary's keys |
| Storage.FormatTopicsCodesIds | src/storage/client.py:52-54 | the codes are distinct and are exactly the codes of the given names |
| Storage.FormatTopicsCodesLastWins | src/storage/client.py:54 | a name that no later name shares a code with is the one stored for its code |
| Storage.FormatTopicsCodesNames | src/storage/client.py:54 | each stored name is one of the inputs, and its code is its key |
| Storage.MetadataFilterNone | src/storage/client.py:56-63 | a key is kept exactly when it has a value and is not excluded; kept values are unchanged |
| Storage.MetadataFilterNoneDefault | src/storage/client.py:60-61 | no exclusion list behaves like an empty one |
| Storage.StoredMetadata | src/storage/client.py:74-77 | the stored metadata has no `url` key and carries the joined topic codes under `topics` |
| Storage.StoredMetadataFields | src/storage/client.py:74-77 | a metadata field other than the URL is stored exactly when present, with its value |
| Storage.Add | src/storage/client.py:65-94 | after `add`, the article record (content, filtered metadata, topic codes) and the summary record are found under the URL |
| Storage.AddStoresTopic | src/storage/client.py:70-94 | after `add`, each topic code finds its name |
| Storage.AddLeavesOthers | src/storage/client.py:65-94 | `add` changes nothing besides the article, its summary and its topic codes |
| Storage.AddKeepsWellformed | src/storage/client.py:79-94 | `add` keeps one record per id in each collection |
| Storage.ReAddReplaces | src/storage/client.py:79-94 | re-adding a URL replaces its article and summary, while topics written only the first time remain |
| Storage.GetTopics | src/storage/client.py:96-104 | the dictionary's keys are exactly the stored topic ids |
| Storage.GetTopicsAgreesWithLookup | src/storage/client.py:96-104 | with unique ids, the dictionary maps each code to the name stored under it |
| Storage.TopicNamesOne | src/storage/client.py:127-129 | one code gives its name when it is a known topic and nothing otherwise |
| Storage.TopicNamesAppend | src/storage/client.py:127-129 | the names of two runs of codes are the names of each, one after the other: kept names follow the stored code order, with unknown codes skipped |
| Storage.TopicNamesMembers | src/storage/client.py:127-129 | a name is resolved exactly when some listed code is a known topic with that name |
| Storage.TopicNamesAllKnown | src/storage/client.py:127-129 | when every listed code is known, the names follow the codes one for one |
| Storage.ResolveNoTopics | src/storage/client.py:125-129 | an article stored without topics splits to `[""]` and resolves only a topic whose code is `""` |
| Storage.ResolveStoredTopics | src/storage/client.py:125-129 | joined codes resolve back to their names in order, provided there is at least one |
| Storage.ArticlesFrom | src/storage/client.py:121-141 | on success the loop builds one article per stored article |
| Storage.ArticlesFromFails | src/storage/client.py:131-135 | the loop fails exactly when the first article has no summary and none is held, naming that article |
| Storage.ArticlesFromCons | src/storage/client.py:131-141 | after a successful first step a summary is held, and the first article is built from it |
| Storage.ArticlesFromAt | src/storage/client.py:121-141 | each article has its record's id and content, the summary held at that point, and the resolved topics |
| Storage.GetAll | src/storage/client.py:106-143 | on success `get_all` returns the topic dictionary and one article per stored article |
| Storage.GetAllFailsIff | src/storage/client.py:131-139 | `get_all` raises `UnboundLocalError` exactly when the first listed article has no summary |
| Storage.GetAllReusesStaleSummary | src/storage/client.py:131-135 | an article without its own summary is shown with the previous article's summary |
| Storage.GetAllConsistent | src/storage/client.py:121-143 | when every article has a summary, `get_all` succeeds and shows each article with its own summary |
| Storage.AddKeepsConsistent | src/storage/client.py:79-89 | `add` keeps every article paired with a summary |
| Storage.StoredCodesAreSplittable | src/storage/client.py:70-72 | a non-empty topic list gives at least one code, none containing `", "`, each with a name |
| Storage.AddedTopicsResolve | src/storage/client.py:70-129 | the topics of an added article read back as the names of its codes, in code order (for a summarization that lists at least one topic) |
| Storage.AddThenGetAll | src/storage/client.py:65-143 | after `add`, `get_all` shows the article with its content, the new summary and its topic names (provided every stored article already has a summary and the summarization lists at least one topic) |
| Storage.Search | src/storage/client.py:145-190 | no more articles than hits; an article is returned exactly when some hit within the threshold and with a stored summary shows it, with that summary and its resolved topic names |
| Storage.SearchHits | src/storage/client.py:153-183 | search returns no more articles than the query returned hits |
| Storage.SearchAppend | src/storage/client.py:153-183 | search keeps the query's order: the result for two runs of hits is the concatenation of their results |
| Storage.SearchOne | src/storage/client.py:161-183 | a hit is shown exactly when it is within the threshold and has a stored summary |
| Storage.SearchMembers | src/storage/client.py:153-183 | every shown article comes from a related hit, and every related hit is shown |
| Storage.SearchThresholdInclusive | src/storage/client.py:161-174 | a hit exactly at the threshold is kept; a hit beyond it, or one without a summary, is dropped |

## Left out

- HTTP and concurrency: the session, its headers and `asyncio.gather` are not modelled. Each request's outcome is an input: an exception message, or a status with a body that may fail to decode.
- `gather(..., return_exceptions=True)` can also return a non-`Exception` error such as a cancellation. The loop would then pass that object to `format_content`. Every outcome here is either a text or an `ExtractionError`.
- trafilatura: `extract` and `extract_metadata` are function parameters. The case where `extract_metadata` returns `None` (so `.as_dict()` raises) is not modelled.
- The language model behind the summarization is not modelled. Only the shape of its answer, `ArticleSummarization`, is.
- Vector database: embeddings, similarity ranking, `n_results`, persistence and collection creation are not modelled. The search takes the query's hits as input.
  - An upsert replaces the whole record. A metadata merge on upsert is not modelled.
  - An upsert with an empty id list (an article with no topics) is a no-op here. The real database may reject it.
- Settings loading, the CLI and every `print` warning are not modelled.
- Character classes: `\w` and `str.lower` are ASCII only here. Python's Unicode word characters and case mapping are not modelled. `\s` and `strip` use Python's whitespace set.
- Distances and thresholds are exact reals. Float rounding and NaN are not modelled.
- `hostname` is typed `str` but read with `.get`. It is modelled as optional, like the other fields.
- Listing order: the vector database's `get()` is taken to list records in insertion order, with an upsert replacing a record in place. The engine does not promise this. `get_all` failing on the first listed article, and an article showing the previous article's summary, both depend on this order.
- Extractor.ScrapeUrls: the function itself only promises the document count. The per-page contents and the first-failure behaviour are in the lemmas about it.
