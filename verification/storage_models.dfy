/** The stored article as the storage layer hands it out, and its
    plain-text rendering. */
module StorageModels {

  import opened Wrappers
  import opened Text

  /** An article with everything stored about it. */
  datatype Article = Article(url: string, content: string, summary: string, topics: seq<string>)
  {
    /** The article's identifier in every collection is its URL. */
    function Id(): string
    {
      url
    }

    /** `str(article)`: the bracketed identifier, the summary line and the
        comma-separated topics. The content is not shown. */
    function Render(): (r: string)
      ensures |r| == |url| + |summary| + |JoinComma(topics)| + 21
      ensures r[..|url| + 2] == "[" + Id() + "]"
      ensures r[|r| - |JoinComma(topics)|..] == JoinComma(topics)
    {
      "[" + Id() + "]\nSummary: " + summary + "\nTopics: " + JoinComma(topics)
    }
  }

  /** Index of the first `c` in `s` at or after `from`, or -1. */
  function FindChar(s: string, c: char, from: nat): (r: int)
    decreases |s| - from
    ensures r == -1 || (from <= r < |s| && s[r] == c)
    ensures forall i :: from <= i < |s| && (r == -1 || i < r) ==> s[i] != c
  {
    if from >= |s| then -1
    else if s[from] == c then from
    else FindChar(s, c, from + 1)
  }

  /** Reads the identifier back from a rendering: the text between the
      opening `[` and the first `]`. */
  function ParseId(s: string): (r: Option<string>)
    ensures r.Some? ==> |s| > |r.value| + 1 && s[0] == '[' && s[|r.value| + 1] == ']'
    ensures r.Some? ==> ']' !in r.value && s[1..|r.value| + 1] == r.value
  {
    if |s| == 0 || s[0] != '[' then None
    else
      var close := FindChar(s, ']', 1);
      if close < 0 then None else Some(s[1..close])
  }

  /** The rendering names the article: its identifier can be read back
      from it, unless the URL itself contains `]`. */
  lemma RenderShowsId(a: Article)
    requires ']' !in a.url
    ensures ParseId(a.Render()) == Some(a.Id())
  {
    var r := a.Render();
    var n := |a.url|;
    assert r[..n + 2] == "[" + a.url + "]";
    assert r[0] == '[' && r[n + 1] == ']';
    forall i | 1 <= i < n + 1 ensures r[i] != ']' {
      assert r[i] == a.url[i - 1];
    }
    assert r[1..n + 1] == a.url;
  }

  /** The rendering does not depend on the content. */
  lemma RenderIgnoresContent(a: Article, content: string)
    ensures a.(content := content).Render() == a.Render()
  {
  }

  /** The topics can be read back from the end of the rendering, provided
      the list is not empty and no topic contains `", "`. */
  lemma RenderShowsTopics(a: Article)
    requires |a.topics| >= 1
    requires forall k :: 0 <= k < |a.topics| ==> HasNoSeparator(a.topics[k])
    ensures var r := a.Render();
      SplitComma(r[|r| - |JoinComma(a.topics)|..]) == a.topics
  {
    SplitJoin(a.topics);
  }
}
