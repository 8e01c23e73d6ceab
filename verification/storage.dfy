/** The storage client: three collections (articles, summaries, topics)
    and the operations that write an article with its summarization, read
    everything back, and filter the answer of a similarity query. */
module Storage {

  import opened Wrappers
  import opened Text
  import opened ScrapingModels
  import opened Summarization
  import opened Settings
  import opened StorageModels
  import opened Collections

  /** The three collections. Articles hold the page text and the metadata
      (with the topic codes joined by `", "`), summaries the summary text
      under the same identifier, and topics each topic's display name
      under its code. */
  datatype Database = Database(articles: Collection, summaries: Collection, topics: Collection)

  predicate Wellformed(db: Database)
  {
    UniqueIds(db.articles) && UniqueIds(db.summaries) && UniqueIds(db.topics)
  }

  // ---------------------------------------------------------------------
  // Topic codes

  /** The code of a topic name: lower case, spaces turned into `-`. */
  function TopicCode(name: string): (code: string)
    ensures |code| == |name|
    ensures ' ' !in code
  {
    ReplaceSpaces(Lower(name))
  }

  /** A code has no `", "` in it, so a list of codes survives being joined
      with `", "` and split again. */
  lemma TopicCodeHasNoSeparator(name: string)
    ensures HasNoSeparator(TopicCode(name))
  {
    var code := TopicCode(name);
    forall i | 0 <= i < |code| ensures !SeparatorAt(code, i) {
      if i + 1 < |code| {
        assert code[i + 1] in code;
      }
    }
  }

  /** A code is its own code. */
  lemma TopicCodeIdempotent(name: string)
    ensures TopicCode(TopicCode(name)) == TopicCode(name)
  {
    var code := TopicCode(name);
    forall i | 0 <= i < |code| ensures TopicCode(code)[i] == code[i] {
      assert code[i] != ' ' by { assert code[i] in code; }
      assert Lower(code)[i] == LowerChar(code[i]);
    }
  }

  /** Names that differ only in case have the same code. */
  lemma TopicCodeIgnoresCase(a: string, b: string)
    requires Lower(a) == Lower(b)
    ensures TopicCode(a) == TopicCode(b)
  {
  }

  /** `"Space Technology"` and `"space technology"` both have the code
      `"space-technology"`. */
  lemma TopicCodeExample(name: string)
    requires name == "Space Technology" || name == "space technology"
    ensures TopicCode(name) == "space-technology"
  {
  }

  function Codes(topics: seq<string>): (codes: seq<string>)
    ensures |codes| == |topics|
    ensures forall k :: 0 <= k < |topics| ==> codes[k] == TopicCode(topics[k])
  {
    seq(|topics|, k requires 0 <= k < |topics| => TopicCode(topics[k]))
  }

  /** The first occurrence of each element, in order. */
  function Dedup<T(==)>(xs: seq<T>): (r: seq<T>)
  {
    if xs == [] then []
    else
      var d := Dedup(xs[..|xs| - 1]);
      if xs[|xs| - 1] in d then d else d + [xs[|xs| - 1]]
  }

  lemma {:induction false} DedupSpec<T>(xs: seq<T>)
    ensures Distinct(Dedup(xs))
    ensures forall x :: x in Dedup(xs) <==> x in xs
  {
    if xs != [] {
      var n := |xs| - 1;
      DedupSpec(xs[..n]);
      assert xs == xs[..n] + [xs[n]];
    }
  }

  /** The topics of a summarization as a dictionary: codes in order of
      first appearance, each with the last name that has that code. */
  datatype TopicCodes = TopicCodes(ids: seq<string>, names: map<string, string>)

  /** `format_topics_codes`. */
  function FormatTopicsCodes(topics: seq<string>): (r: TopicCodes)
    ensures |r.ids| <= |topics|
    ensures forall c :: c in r.names <==> c in r.ids
    ensures forall c :: c in r.names ==> TopicCode(r.names[c]) == c
  {
    if topics == [] then TopicCodes([], map[])
    else
      var n := |topics| - 1;
      var prev := FormatTopicsCodes(topics[..n]);
      var code := TopicCode(topics[n]);
      TopicCodes(if code in prev.ids then prev.ids else prev.ids + [code], prev.names[code := topics[n]])
  }

  /** The codes are listed once each, in order of first appearance, and
      they are exactly the dictionary's keys. */
  lemma {:induction false} FormatTopicsCodesKeys(topics: seq<string>)
    ensures var r := FormatTopicsCodes(topics);
      && r.ids == Dedup(Codes(topics))
      && r.names.Keys == set c | c in r.ids
  {
    if topics != [] {
      var n := |topics| - 1;
      FormatTopicsCodesKeys(topics[..n]);
      assert Codes(topics) == Codes(topics[..n]) + [TopicCode(topics[n])];
      assert Codes(topics)[..n] == Codes(topics[..n]);
    }
  }

  /** The codes are distinct and are the codes of the given names. */
  lemma FormatTopicsCodesIds(topics: seq<string>)
    ensures var r := FormatTopicsCodes(topics);
      && Distinct(r.ids)
      && forall c :: c in r.ids <==> c in Codes(topics)
  {
    FormatTopicsCodesKeys(topics);
    DedupSpec(Codes(topics));
  }

  /** Each code maps to a name that has it, and a name that no later name
      shares a code with is the one kept for its code. */
  lemma {:induction false} FormatTopicsCodesLastWins(topics: seq<string>, k: int)
    requires 0 <= k < |topics|
    requires forall j :: k < j < |topics| ==> Codes(topics)[j] != Codes(topics)[k]
    ensures var r := FormatTopicsCodes(topics);
      TopicCode(topics[k]) in r.names && r.names[TopicCode(topics[k])] == topics[k]
  {
    var n := |topics| - 1;
    var prev := FormatTopicsCodes(topics[..n]);
    assert FormatTopicsCodes(topics).names == prev.names[TopicCode(topics[n]) := topics[n]];
    if k < n {
      assert TopicCode(topics[n]) != TopicCode(topics[k]) by {
        assert Codes(topics)[n] == TopicCode(topics[n]);
      }
      forall j | k < j < n ensures Codes(topics[..n])[j] != Codes(topics[..n])[k] {
        assert Codes(topics)[j] != Codes(topics)[k];
      }
      FormatTopicsCodesLastWins(topics[..n], k);
    }
  }

  /** Every stored name is one of the given names and has its key as code. */
  lemma {:induction false} FormatTopicsCodesNames(topics: seq<string>, c: string)
    ensures var r := FormatTopicsCodes(topics);
      c in r.names ==> r.names[c] in topics && TopicCode(r.names[c]) == c
  {
    if topics != [] {
      var n := |topics| - 1;
      FormatTopicsCodesNames(topics[..n], c);
      assert topics == topics[..n] + [topics[n]];
    }
  }

  // ---------------------------------------------------------------------
  // Metadata

  /** `metadata_filter_none`: drop the missing values and the excluded
      keys. No exclusion list means none is excluded. */
  function MetadataFilterNone<V>(m: map<string, Option<V>>, exclude: Option<seq<string>>): (r: map<string, V>)
    ensures forall k :: k in r <==> k in m && m[k].Some? && (exclude.None? || k !in exclude.value)
    ensures forall k :: k in r ==> m[k] == Some(r[k])
  {
    var excluded := if exclude.None? then [] else exclude.value;
    map k | k in m && m[k].Some? && k !in excluded :: m[k].value
  }

  /** Leaving out the exclusion list is the same as passing an empty one. */
  lemma MetadataFilterNoneDefault<V>(m: map<string, Option<V>>)
    ensures MetadataFilterNone(m, None) == MetadataFilterNone(m, Some([]))
  {
  }

  /** The metadata stored with an article: the present fields except the
      URL, plus the joined topic codes. */
  function StoredMetadata(metadata: ArticleMetadata, topicIds: string): (r: map<string, string>)
    ensures "url" !in r && "topics" in r && r["topics"] == topicIds
  {
    MetadataFilterNone(AsDict(metadata), Some(["url"]))["topics" := topicIds]
  }

  /** Exactly the present metadata fields other than the URL are stored,
      with their values. */
  lemma StoredMetadataFields(metadata: ArticleMetadata, topicIds: string, k: string)
    requires k in MetadataKeys && k != "url"
    ensures var r := StoredMetadata(metadata, topicIds);
      (k in r <==> AsDict(metadata)[k].Some?) && (k in r ==> AsDict(metadata)[k] == Some(r[k]))
  {
  }

  // ---------------------------------------------------------------------
  // add

  /** One topic record per code, named by the dictionary. */
  function TopicRecords(codes: TopicCodes): (recs: seq<Record>)
    requires forall c :: c in codes.ids ==> c in codes.names
    ensures Ids(recs) == codes.ids
    ensures forall rec :: rec in recs ==> rec.id in codes.names && rec == Record(rec.id, codes.names[rec.id], map[])
  {
    seq(|codes.ids|, k requires 0 <= k < |codes.ids| => Record(codes.ids[k], codes.names[codes.ids[k]], map[]))
  }

  /** `add`: upsert the article under its URL, its summary under the same
      URL, and one record per topic code. An empty list of topics writes no
      topic record. */
  function Add(db: Database, doc: Document, s: ArticleSummarization): (r: Database)
    ensures Lookup(r.articles, doc.metadata.url) == Some(ArticleRecord(doc, s))
    ensures Lookup(r.summaries, doc.metadata.url) == Some(SummaryRecord(doc, s))
  {
    var url := doc.metadata.url;
    var codes := FormatTopicsCodes(s.topics);
    var topicIds := JoinComma(codes.ids);
    FormatTopicsCodesKeys(s.topics);
    UpsertLookup(db.articles, ArticleRecord(doc, s), url);
    UpsertLookup(db.summaries, SummaryRecord(doc, s), url);
    Database(
      Upsert(db.articles, Record(url, doc.content, StoredMetadata(doc.metadata, topicIds))),
      Upsert(db.summaries, Record(url, s.summary, map["topics" := topicIds])),
      UpsertAll(db.topics, TopicRecords(codes)))
  }

  /** The record `add` writes for the article. */
  function ArticleRecord(doc: Document, s: ArticleSummarization): Record
  {
    Record(doc.metadata.url, doc.content, StoredMetadata(doc.metadata, JoinComma(FormatTopicsCodes(s.topics).ids)))
  }

  /** The record `add` writes for the summary. */
  function SummaryRecord(doc: Document, s: ArticleSummarization): Record
  {
    Record(doc.metadata.url, s.summary, map["topics" := JoinComma(FormatTopicsCodes(s.topics).ids)])
  }

  /** After `add`, the article and its summary are found under the URL. */
  lemma AddStores(db: Database, doc: Document, s: ArticleSummarization)
    ensures var r := Add(db, doc, s);
      && Lookup(r.articles, doc.metadata.url) == Some(ArticleRecord(doc, s))
      && Lookup(r.summaries, doc.metadata.url) == Some(SummaryRecord(doc, s))
  {
    UpsertLookup(db.articles, ArticleRecord(doc, s), doc.metadata.url);
    UpsertLookup(db.summaries, SummaryRecord(doc, s), doc.metadata.url);
  }

  /** After `add`, each of the article's topics is found under its code,
      with the name kept for that code. */
  lemma AddStoresTopic(db: Database, doc: Document, s: ArticleSummarization, c: string)
    ensures var codes := FormatTopicsCodes(s.topics);
      c in codes.names ==> Lookup(Add(db, doc, s).topics, c) == Some(Record(c, codes.names[c], map[]))
  {
    var codes := FormatTopicsCodes(s.topics);
    FormatTopicsCodesKeys(s.topics);
    FormatTopicsCodesIds(s.topics);
    var recs := TopicRecords(codes);
    assert Add(db, doc, s).topics == UpsertAll(db.topics, recs);
    UpsertAllLookup(db.topics, recs, c);
    if c in codes.names {
      assert c in codes.ids;
      var k :| 0 <= k < |codes.ids| && codes.ids[k] == c;
      assert recs[k].id == c;
    }
  }

  /** `add` changes nothing else: other articles and summaries, and topics
      whose codes it does not write, are found as before. */
  lemma AddLeavesOthers(db: Database, doc: Document, s: ArticleSummarization, id: string)
    ensures var r := Add(db, doc, s);
      && (id != doc.metadata.url ==> Lookup(r.articles, id) == Lookup(db.articles, id))
      && (id != doc.metadata.url ==> Lookup(r.summaries, id) == Lookup(db.summaries, id))
      && (id !in FormatTopicsCodes(s.topics).ids ==> Lookup(r.topics, id) == Lookup(db.topics, id))
  {
    FormatTopicsCodesKeys(s.topics);
    FormatTopicsCodesIds(s.topics);
    UpsertLookup(db.articles, ArticleRecord(doc, s), id);
    UpsertLookup(db.summaries, SummaryRecord(doc, s), id);
    UpsertAllLookup(db.topics, TopicRecords(FormatTopicsCodes(s.topics)), id);
  }

  /** `add` keeps one record per identifier in every collection. */
  lemma AddKeepsWellformed(db: Database, doc: Document, s: ArticleSummarization)
    requires Wellformed(db)
    ensures Wellformed(Add(db, doc, s))
  {
    FormatTopicsCodesKeys(s.topics);
    UpsertKeepsUnique(db.articles, ArticleRecord(doc, s));
    UpsertKeepsUnique(db.summaries, SummaryRecord(doc, s));
    UpsertAllKeepsUnique(db.topics, TopicRecords(FormatTopicsCodes(s.topics)));
  }

  /** Adding an article again replaces its article and summary records,
      while topics written the first time and not the second stay. */
  lemma ReAddReplaces(db: Database, doc1: Document, s1: ArticleSummarization, doc2: Document, s2: ArticleSummarization, c: string)
    requires doc1.metadata.url == doc2.metadata.url
    ensures var r := Add(Add(db, doc1, s1), doc2, s2);
      && Lookup(r.articles, doc2.metadata.url) == Some(ArticleRecord(doc2, s2))
      && Lookup(r.summaries, doc2.metadata.url) == Some(SummaryRecord(doc2, s2))
      && (c in FormatTopicsCodes(s1.topics).names && c !in FormatTopicsCodes(s2.topics).names ==>
            Lookup(r.topics, c) == Some(Record(c, FormatTopicsCodes(s1.topics).names[c], map[])))
  {
    FormatTopicsCodesKeys(s2.topics);
    AddStoresTopic(db, doc1, s1, c);
    AddStores(Add(db, doc1, s1), doc2, s2);
    AddLeavesOthers(Add(db, doc1, s1), doc2, s2, c);
  }

  // ---------------------------------------------------------------------
  // Reading back

  /** `get_topics`: every topic record as code to name; for a repeated
      identifier the record listed last would win. */
  function GetTopics(c: Collection): (r: map<string, string>)
    ensures r.Keys == set k | 0 <= k < |c| :: c[k].id
  {
    if c == [] then map[]
    else
      var n := |c| - 1;
      var prev := GetTopics(c[..n]);
      assert forall k :: 0 <= k < n ==> c[..n][k] == c[k];
      prev[c[n].id := c[n].document]
  }

  /** With one record per identifier the dictionary agrees with looking the
      code up in the collection. */
  lemma {:induction false} GetTopicsAgreesWithLookup(c: Collection, id: string)
    requires UniqueIds(c)
    ensures id in GetTopics(c) <==> Lookup(c, id).Some?
    ensures id in GetTopics(c) ==> GetTopics(c)[id] == Lookup(c, id).value.document
  {
    if c != [] {
      var n := |c| - 1;
      var init := c[..n];
      assert c == init + [c[n]];
      IdsSnoc(init, c[n]);
      GetTopicsAgreesWithLookup(init, id);
      LookupSnoc(init, c[n], id);
      if id == c[n].id {
        assert id !in Ids(init);
      }
    }
  }

  /** The names of the listed codes that are known topics, in order
      (`[topics.get(i) for i in ids if i in topics]`). */
  function TopicNames(ids: seq<string>, topics: map<string, string>): (r: seq<string>)
    ensures |r| <= |ids|
  {
    if ids == [] then []
    else (if ids[0] in topics then [topics[ids[0]]] else []) + TopicNames(ids[1..], topics)
  }

  /** Every name comes from a listed, known code, and every listed known
      code contributes its name. */
  lemma {:induction false} TopicNamesMembers(ids: seq<string>, topics: map<string, string>, x: string)
    ensures x in TopicNames(ids, topics) <==> exists i :: i in ids && i in topics && topics[i] == x
  {
    if ids != [] {
      TopicNamesMembers(ids[1..], topics, x);
      var here := if ids[0] in topics then [topics[ids[0]]] else [];
      assert TopicNames(ids, topics) == here + TopicNames(ids[1..], topics);
      if exists i :: i in ids && i in topics && topics[i] == x {
        var i :| i in ids && i in topics && topics[i] == x;
        if i != ids[0] {
          assert i in ids[1..];
        }
      }
    }
  }

  /** The names of two runs of codes are the names of each, one after the
      other: the kept names follow the order of the codes, whether or not
      some codes are unknown. */
  lemma {:induction false} TopicNamesAppend(a: seq<string>, b: seq<string>, topics: map<string, string>)
    ensures TopicNames(a + b, topics) == TopicNames(a, topics) + TopicNames(b, topics)
  {
    if a != [] {
      var here := if a[0] in topics then [topics[a[0]]] else [];
      assert (a + b)[0] == a[0];
      assert (a + b)[1..] == a[1..] + b;
      TopicNamesAppend(a[1..], b, topics);
      var restA, restB := TopicNames(a[1..], topics), TopicNames(b, topics);
      assert TopicNames(a + b, topics) == here + (restA + restB);
      assert here + (restA + restB) == (here + restA) + restB;
    } else {
      assert a + b == b;
    }
  }

  /** A single code gives its name when it is known and nothing otherwise. */
  lemma TopicNamesOne(id: string, topics: map<string, string>)
    ensures TopicNames([id], topics) == if id in topics then [topics[id]] else []
  {
    assert [id][1..] == [];
  }

  /** When every listed code is known, the names follow the codes one for
      one. */
  lemma {:induction false} TopicNamesAllKnown(ids: seq<string>, topics: map<string, string>)
    requires forall k :: 0 <= k < |ids| ==> ids[k] in topics
    ensures |TopicNames(ids, topics)| == |ids|
    ensures forall k :: 0 <= k < |ids| ==> TopicNames(ids, topics)[k] == topics[ids[k]]
  {
    if ids != [] {
      TopicNamesAllKnown(ids[1..], topics);
      var rest := TopicNames(ids[1..], topics);
      assert TopicNames(ids, topics) == [topics[ids[0]]] + rest;
    }
  }

  /** `metadata.get(key, default)` on string metadata. */
  function GetOr(m: map<string, string>, key: string, default: string): string
  {
    if key in m then m[key] else default
  }

  /** The topic names of an article: split its stored codes and keep the
      known ones. */
  function ResolveTopics(metadata: map<string, string>, topics: map<string, string>): seq<string>
  {
    TopicNames(SplitComma(GetOr(metadata, "topics", "")), topics)
  }

  /** An article stored without topics reads back the topic whose code is
      the empty string, if there is one, because `"".split(", ")` is
      `[""]`. */
  lemma ResolveNoTopics(metadata: map<string, string>, topics: map<string, string>)
    requires GetOr(metadata, "topics", "") == ""
    ensures ResolveTopics(metadata, topics) == if "" in topics then [topics[""]] else []
  {
    assert FindSeparator("", 0) == -1;
    assert SplitComma("") == [""];
  }

  /** Codes stored by `add` resolve to the names `add` stored for them,
      one for one, provided the summarization listed some topic. */
  lemma ResolveStoredTopics(metadata: map<string, string>, codes: TopicCodes, topics: map<string, string>)
    requires GetOr(metadata, "topics", "") == JoinComma(codes.ids)
    requires |codes.ids| >= 1
    requires forall k :: 0 <= k < |codes.ids| ==> HasNoSeparator(codes.ids[k])
    requires forall k :: 0 <= k < |codes.ids| ==> codes.ids[k] in topics
    ensures var r := ResolveTopics(metadata, topics);
      |r| == |codes.ids| && forall k :: 0 <= k < |r| ==> r[k] == topics[codes.ids[k]]
  {
    SplitJoin(codes.ids);
    TopicNamesAllKnown(codes.ids, topics);
  }

  // ---------------------------------------------------------------------
  // get_all

  /** The `UnboundLocalError` raised when the first article read has no
      summary: the summary variable was never assigned. */
  datatype StorageError = UnboundSummary(articleId: string)

  /** The summary variable after the loop reads `rec`: the record's own
      stored summary if there is one, otherwise what it held before. */
  function Held(rec: Record, summaries: Collection, before: Option<string>): Option<string>
  {
    match Lookup(summaries, rec.id)
    case Some(s) => Some(s.document)
    case None => before
  }

  /** The summary the loop holds when it builds the article at position
      `k`: that article's own summary if one is stored, otherwise the one
      it held for the article before (`last` before the first). */
  function SummaryAt(records: Collection, summaries: Collection, k: nat, last: Option<string>): Option<string>
    requires k < |records|
  {
    Held(records[k], summaries, if k == 0 then last else SummaryAt(records, summaries, k - 1, last))
  }

  /** The article the loop builds from a stored record. */
  function ArticleOf(rec: Record, summary: string, topics: map<string, string>): Article
  {
    Article(rec.id, rec.document, summary, ResolveTopics(rec.metadata, topics))
  }

  /** The `get_all` loop from some record on, holding `last` as the summary
      variable: each article takes its own stored summary or keeps the
      variable's value; with no value yet the loop fails. */
  function ArticlesFrom(records: Collection, summaries: Collection, topics: map<string, string>, last: Option<string>)
    : (r: Result<seq<Article>, StorageError>)
    ensures r.Success? ==> |r.value| == |records|
  {
    if records == [] then Success([])
    else
      var rec := records[0];
      var summary := Held(rec, summaries, last);
      match summary
      case None => Failure(UnboundSummary(rec.id))
      case Some(text) =>
        match ArticlesFrom(records[1..], summaries, topics, summary)
        case Failure(e) => Failure(e)
        case Success(rest) => Success([ArticleOf(rec, text, topics)] + rest)
  }

  /** `get_all`: the topics dictionary and every stored article. */
  function GetAll(db: Database): (r: Result<(map<string, string>, seq<Article>), StorageError>)
    ensures r.Success? ==> r.value.0 == GetTopics(db.topics) && |r.value.1| == |db.articles|
  {
    var topics := GetTopics(db.topics);
    match ArticlesFrom(db.articles, db.summaries, topics, None)
    case Failure(e) => Failure(e)
    case Success(articles) => Success((topics, articles))
  }

  /** Dropping the first record shifts the held summary by one. */
  lemma {:induction false} SummaryAtShift(records: Collection, summaries: Collection, k: nat, last: Option<string>)
    requires 0 < k < |records|
    ensures SummaryAt(records, summaries, k, last) ==
      SummaryAt(records[1..], summaries, k - 1, SummaryAt(records, summaries, 0, last))
  {
    if k > 1 {
      SummaryAtShift(records, summaries, k - 1, last);
    }
  }

  /** The loop fails exactly when the first record has no stored summary
      and no summary is held, and then names that record. */
  lemma {:induction false} ArticlesFromFails(records: Collection, summaries: Collection, topics: map<string, string>, last: Option<string>)
    ensures var r := ArticlesFrom(records, summaries, topics, last);
      && (r.Failure? <==> |records| > 0 && SummaryAt(records, summaries, 0, last).None?)
      && (r.Failure? ==> r.error == UnboundSummary(records[0].id))
  {
    if records != [] {
      var first := SummaryAt(records, summaries, 0, last);
      if first.Some? {
        var tail := records[1..];
        ArticlesFromFails(tail, summaries, topics, first);
        assert tail != [] ==> SummaryAt(tail, summaries, 0, first).Some?;
      }
    }
  }

  /** A successful loop holds a summary after the first record and builds
      the first article from it, then the rest. */
  lemma ArticlesFromCons(records: Collection, summaries: Collection, topics: map<string, string>, last: Option<string>)
    requires records != []
    requires ArticlesFrom(records, summaries, topics, last).Success?
    ensures var first := Held(records[0], summaries, last);
      && first.Some?
      && ArticlesFrom(records[1..], summaries, topics, first).Success?
      && ArticlesFrom(records, summaries, topics, last).value ==
           [ArticleOf(records[0], first.value, topics)] + ArticlesFrom(records[1..], summaries, topics, first).value
  {
  }

  /** On success the `k`-th article is built from the `k`-th record with
      the summary held at that point. */
  lemma {:induction false} ArticlesFromAt(records: Collection, summaries: Collection, topics: map<string, string>, last: Option<string>, k: nat)
    requires ArticlesFrom(records, summaries, topics, last).Success?
    requires k < |records|
    ensures SummaryAt(records, summaries, k, last).Some?
    ensures ArticlesFrom(records, summaries, topics, last).value[k] ==
      ArticleOf(records[k], SummaryAt(records, summaries, k, last).value, topics)
  {
    ArticlesFromCons(records, summaries, topics, last);
    var first := Held(records[0], summaries, last);
    var tail := records[1..];
    var r := ArticlesFrom(records, summaries, topics, last).value;
    var rest := ArticlesFrom(tail, summaries, topics, first).value;
    if k == 0 {
      assert SummaryAt(records, summaries, 0, last) == first;
      assert r[0] == ArticleOf(records[0], first.value, topics);
    } else {
      ArticlesFromAt(tail, summaries, topics, first, k - 1);
      SummaryAtShift(records, summaries, k, last);
      assert SummaryAt(records, summaries, 0, last) == first;
      assert tail[k - 1] == records[k];
      assert r[k] == rest[k - 1];
    }
  }

  /** `get_all` fails exactly when the first article listed has no
      summary; the error names that article. */
  lemma GetAllFailsIff(db: Database)
    ensures GetAll(db).Failure? <==> |db.articles| > 0 && db.articles[0].id !in Ids(db.summaries)
    ensures GetAll(db).Failure? ==> GetAll(db).error == UnboundSummary(db.articles[0].id)
  {
    ArticlesFromFails(db.articles, db.summaries, GetTopics(db.topics), None);
  }

  /** An article without a summary of its own is shown with the summary of
      the article read before it. */
  lemma GetAllReusesStaleSummary(db: Database, k: int)
    requires GetAll(db).Success?
    requires 0 < k < |db.articles| && db.articles[k].id !in Ids(db.summaries)
    ensures GetAll(db).value.1[k].summary == GetAll(db).value.1[k - 1].summary
  {
    ArticlesFromAt(db.articles, db.summaries, GetTopics(db.topics), None, k);
    ArticlesFromAt(db.articles, db.summaries, GetTopics(db.topics), None, k - 1);
  }

  /** Every article has a summary. */
  predicate Consistent(db: Database)
  {
    forall k :: 0 <= k < |db.articles| ==> db.articles[k].id in Ids(db.summaries)
  }

  /** When every article has a summary, `get_all` succeeds and shows each
      article with its own summary, content and resolved topics. */
  lemma GetAllConsistent(db: Database)
    requires Consistent(db)
    ensures GetAll(db).Success?
    ensures forall k :: 0 <= k < |db.articles| ==>
      GetAll(db).value.1[k] == ArticleOf(db.articles[k], Lookup(db.summaries, db.articles[k].id).value.document, GetTopics(db.topics))
  {
    var topics := GetTopics(db.topics);
    ArticlesFromFails(db.articles, db.summaries, topics, None);
    if |db.articles| > 0 {
      assert db.articles[0].id in Ids(db.summaries);
    }
    forall k | 0 <= k < |db.articles|
      ensures GetAll(db).value.1[k] == ArticleOf(db.articles[k], Lookup(db.summaries, db.articles[k].id).value.document, topics)
    {
      ArticlesFromAt(db.articles, db.summaries, topics, None, k);
      assert db.articles[k].id in Ids(db.summaries);
    }
  }

  /** `add` keeps every article paired with a summary. */
  lemma AddKeepsConsistent(db: Database, doc: Document, s: ArticleSummarization)
    requires Consistent(db)
    ensures Consistent(Add(db, doc, s))
  {
    var r := Add(db, doc, s);
    var url := doc.metadata.url;
    UpsertIds(db.articles, ArticleRecord(doc, s));
    UpsertIds(db.summaries, SummaryRecord(doc, s));
    forall k | 0 <= k < |r.articles| ensures r.articles[k].id in Ids(r.summaries) {
      assert Ids(r.articles)[k] == r.articles[k].id;
    }
  }

  /** The names of a summarization's topics in the order of their codes. */
  predicate NamesInCodeOrder(names: seq<string>, codes: TopicCodes)
  {
    && |names| == |codes.ids|
    && forall k :: 0 <= k < |names| ==> codes.ids[k] in codes.names && names[k] == codes.names[codes.ids[k]]
  }

  /** The topic codes of a non-empty list of topics: at least one, none
      containing `", "`, each with a stored name. */
  lemma StoredCodesAreSplittable(topics: seq<string>)
    requires |topics| >= 1
    ensures var codes := FormatTopicsCodes(topics);
      && |codes.ids| >= 1
      && (forall k :: 0 <= k < |codes.ids| ==> HasNoSeparator(codes.ids[k]))
      && (forall k :: 0 <= k < |codes.ids| ==> codes.ids[k] in codes.names)
  {
    var codes := FormatTopicsCodes(topics);
    FormatTopicsCodesKeys(topics);
    FormatTopicsCodesIds(topics);
    assert Codes(topics)[0] in Codes(topics);
    forall k | 0 <= k < |codes.ids| ensures HasNoSeparator(codes.ids[k]) {
      assert codes.ids[k] in Codes(topics);
      var j :| 0 <= j < |topics| && Codes(topics)[j] == codes.ids[k];
      TopicCodeHasNoSeparator(topics[j]);
    }
  }

  /** The topics an added article reads back resolve to the names of its
      codes, in code order. */
  lemma AddedTopicsResolve(db: Database, doc: Document, s: ArticleSummarization)
    requires Wellformed(db)
    requires |s.topics| >= 1
    ensures NamesInCodeOrder(
      ResolveTopics(ArticleRecord(doc, s).metadata, GetTopics(Add(db, doc, s).topics)),
      FormatTopicsCodes(s.topics))
  {
    var db' := Add(db, doc, s);
    var codes := FormatTopicsCodes(s.topics);
    var topics := GetTopics(db'.topics);
    AddKeepsWellformed(db, doc, s);
    StoredCodesAreSplittable(s.topics);
    forall j | 0 <= j < |codes.ids| ensures codes.ids[j] in topics && topics[codes.ids[j]] == codes.names[codes.ids[j]] {
      AddStoresTopic(db, doc, s, codes.ids[j]);
      GetTopicsAgreesWithLookup(db'.topics, codes.ids[j]);
    }
    ResolveStoredTopics(ArticleRecord(doc, s).metadata, codes, topics);
  }

  /** `a` is the article `add` stored for `doc` and `s`, as read back. */
  predicate ShowsAdded(a: Article, doc: Document, s: ArticleSummarization)
  {
    && a.url == doc.metadata.url
    && a.content == doc.content
    && a.summary == s.summary
    && NamesInCodeOrder(a.topics, FormatTopicsCodes(s.topics))
  }

  /** After `add`, `get_all` lists the article with its content, the new
      summary and the topic names in code order, provided the database
      paired every article with a summary and the summarization listed
      some topic. */
  lemma AddThenGetAll(db: Database, doc: Document, s: ArticleSummarization)
    requires Wellformed(db) && Consistent(db)
    requires |s.topics| >= 1
    ensures var r := GetAll(Add(db, doc, s));
      r.Success? && exists k :: 0 <= k < |r.value.1| && ShowsAdded(r.value.1[k], doc, s)
  {
    var db' := Add(db, doc, s);
    AddKeepsWellformed(db, doc, s);
    AddKeepsConsistent(db, doc, s);
    GetAllConsistent(db');
    AddStores(db, doc, s);
    AddedTopicsResolve(db, doc, s);
    var k :| 0 <= k < |db'.articles| && Ids(db'.articles)[k] == doc.metadata.url;
    LookupUnique(db'.articles, k);
    assert db'.articles[k] == ArticleRecord(doc, s);
    assert ShowsAdded(GetAll(db').value.1[k], doc, s);
  }

  // ---------------------------------------------------------------------
  // search

  /** One answer of the similarity query: an article record and its cosine
      distance from the query. */
  datatype Hit = Hit(id: string, content: string, metadata: map<string, string>, distance: real)

  /** A hit is shown when it is not farther than the threshold and its
      summary is stored. */
  predicate Related(h: Hit, summaries: Collection, t: Threshold)
  {
    !(h.distance > t as real) && Lookup(summaries, h.id).Some?
  }

  /** The article shown for a related hit. */
  function Shown(h: Hit, summaries: Collection, topics: map<string, string>): Article
    requires Lookup(summaries, h.id).Some?
  {
    Article(h.id, h.content, Lookup(summaries, h.id).value.document, ResolveTopics(h.metadata, topics))
  }

  /** What one hit contributes to the result. */
  function ShownIfRelated(h: Hit, summaries: Collection, topics: map<string, string>, t: Threshold): seq<Article>
  {
    if Related(h, summaries, t) then [Shown(h, summaries, topics)] else []
  }

  /** The `search` loop over the query's hits, in the order the query
      returned them. */
  function SearchHits(hits: seq<Hit>, summaries: Collection, topics: map<string, string>, t: Threshold): (r: seq<Article>)
    ensures |r| <= |hits|
  {
    if hits == [] then []
    else
      ShownIfRelated(hits[0], summaries, topics, t) + SearchHits(hits[1..], summaries, topics, t)
  }

  /** `search`, given the query's answer. */
  function Search(db: Database, hits: seq<Hit>, t: Threshold): (r: seq<Article>)
    ensures |r| <= |hits|
    ensures forall a :: a in r <==>
      exists h :: h in hits && Related(h, db.summaries, t) && Shown(h, db.summaries, GetTopics(db.topics)) == a
  {
    SearchShowsRelated(hits, db.summaries, GetTopics(db.topics), t);
    SearchHits(hits, db.summaries, GetTopics(db.topics), t)
  }

  /** Searching two runs of hits one after the other gives the two results
      one after the other: the result keeps the query's order. */
  lemma {:induction false} SearchAppend(a: seq<Hit>, b: seq<Hit>, summaries: Collection, topics: map<string, string>, t: Threshold)
    ensures SearchHits(a + b, summaries, topics, t) == SearchHits(a, summaries, topics, t) + SearchHits(b, summaries, topics, t)
  {
    if a != [] {
      var head := ShownIfRelated(a[0], summaries, topics, t);
      assert (a + b)[0] == a[0];
      assert (a + b)[1..] == a[1..] + b;
      SearchAppend(a[1..], b, summaries, topics, t);
      var restA, restB := SearchHits(a[1..], summaries, topics, t), SearchHits(b, summaries, topics, t);
      assert SearchHits(a + b, summaries, topics, t) == head + (restA + restB);
      assert SearchHits(a, summaries, topics, t) == head + restA;
      assert head + (restA + restB) == (head + restA) + restB;
    } else {
      assert a + b == b;
    }
  }

  /** A single hit is shown exactly when it is related. */
  lemma SearchOne(h: Hit, summaries: Collection, topics: map<string, string>, t: Threshold)
    ensures SearchHits([h], summaries, topics, t) ==
      if Related(h, summaries, t) then [Shown(h, summaries, topics)] else []
  {
    assert [h][1..] == [];
  }

  /** Every shown article comes from a related hit, and every related hit
      is shown. */
  lemma {:induction false} SearchMembers(hits: seq<Hit>, summaries: Collection, topics: map<string, string>, t: Threshold, a: Article)
    ensures a in SearchHits(hits, summaries, topics, t) <==>
      exists h :: h in hits && Related(h, summaries, t) && Shown(h, summaries, topics) == a
  {
    if hits != [] {
      SearchMembers(hits[1..], summaries, topics, t, a);
      if exists h :: h in hits && Related(h, summaries, t) && Shown(h, summaries, topics) == a {
        var h :| h in hits && Related(h, summaries, t) && Shown(h, summaries, topics) == a;
        if h != hits[0] {
          assert h in hits[1..];
        }
      }
    }
  }

  /** `SearchMembers` for every article at once. */
  lemma SearchShowsRelated(hits: seq<Hit>, summaries: Collection, topics: map<string, string>, t: Threshold)
    ensures forall a :: a in SearchHits(hits, summaries, topics, t) <==>
      exists h :: h in hits && Related(h, summaries, t) && Shown(h, summaries, topics) == a
  {
    forall a
      ensures a in SearchHits(hits, summaries, topics, t) <==>
        exists h :: h in hits && Related(h, summaries, t) && Shown(h, summaries, topics) == a
    {
      SearchMembers(hits, summaries, topics, t, a);
    }
  }

  /** The threshold is inclusive: a hit exactly at it is shown when its
      summary is stored, and a hit beyond it never is. */
  lemma SearchThresholdInclusive(h: Hit, summaries: Collection, topics: map<string, string>, t: Threshold)
    ensures h.distance == t as real && h.id in Ids(summaries) ==>
      SearchHits([h], summaries, topics, t) == [Shown(h, summaries, topics)]
    ensures h.distance > t as real ==> SearchHits([h], summaries, topics, t) == []
    ensures h.id !in Ids(summaries) ==> SearchHits([h], summaries, topics, t) == []
  {
    SearchOne(h, summaries, topics, t);
  }
}
