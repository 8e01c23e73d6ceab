/** `URL_PATTERN` and `validate_urls` (src/scraping/utils.py).

    The pattern
      ^(?:https?://)?([\w-]+(\.[\w-]+)+)([\w\-.,@?^=%&:/~+#]*[\w\-@?^=%&/~+#])?$
    is modelled twice: as a grammar (`InUrlLanguage`, a language definition
    with existentially chosen split points) and as a flat recogniser
    (`UrlShaped`) that states each part as character-level conditions; the
    two are proved to accept the same strings. */
module UrlValidation {

  import opened Wrappers
  import opened Text

  // ---------------------------------------------------------------------
  // Character classes

  /** `[\w\-]`: a character of a host label. */
  predicate IsHostChar(c: char)
  {
    IsWordChar(c) || c == '-'
  }

  /** `[\w\-\.,@?^=%&:\/~\+#]`: a character inside the path part. */
  predicate IsPathChar(c: char)
  {
    IsWordChar(c) || c in "-.,@?^=%&:/~+#"
  }

  /** `[\w\-\@?^=%&\/~\+#]`: the last character of the path part
      (no `.`, `,` or `:`). */
  predicate IsPathEndChar(c: char)
  {
    IsWordChar(c) || c in "-@?^=%&/~+#"
  }

  // ---------------------------------------------------------------------
  // The pattern as a grammar

  /** `[\w\-]+` */
  ghost predicate IsLabel(s: string)
  {
    |s| > 0 && forall i :: 0 <= i < |s| ==> IsHostChar(s[i])
  }

  /** `(\.[\w\-]+)+` */
  ghost predicate IsDotLabels(s: string)
    decreases |s|
  {
    && |s| >= 2 && s[0] == '.'
    && exists k :: 2 <= k <= |s| && IsLabel(s[1..k]) && (k == |s| || IsDotLabels(s[k..]))
  }

  /** `[\w\-]+(\.[\w\-]+)+` */
  ghost predicate IsHost(s: string)
  {
    exists k :: 1 <= k < |s| && IsLabel(s[..k]) && IsDotLabels(s[k..])
  }

  /** `(?:https?:\/\/)?` */
  ghost predicate IsScheme(s: string)
  {
    s == "" || s == "http://" || s == "https://"
  }

  /** `([...]*[...])?` : empty, or path characters ending in a path-end
      character. This part is already flat. */
  predicate PathShaped(s: string)
  {
    s == [] || ((forall i :: 0 <= i < |s| - 1 ==> IsPathChar(s[i])) && IsPathEndChar(s[|s| - 1]))
  }

  /** The whole pattern between `^` and `$`. */
  ghost predicate InUrlLanguage(s: string)
  {
    exists a, b :: 0 <= a <= b <= |s| && IsScheme(s[..a]) && IsHost(s[a..b]) && PathShaped(s[b..])
  }

  // ---------------------------------------------------------------------
  // The pattern as a flat recogniser

  predicate HostOrDot(s: string)
  {
    forall i :: 0 <= i < |s| ==> IsHostChar(s[i]) || s[i] == '.'
  }

  /** Two dots in a row start at index `i`. */
  predicate DoubleDotAt(s: string, i: int)
  {
    0 <= i < |s| - 1 && s[i] == '.' && s[i + 1] == '.'
  }

  predicate NoDoubleDot(s: string)
  {
    forall i :: 0 <= i < |s| ==> !DoubleDotAt(s, i)
  }

  /** `(\.[\w\-]+)+` as character-level conditions. */
  predicate DotLabelsShaped(s: string)
  {
    |s| >= 2 && s[0] == '.' && HostOrDot(s) && s[|s| - 1] != '.' && NoDoubleDot(s)
  }

  /** A host: labels separated by single dots, at least one dot, no dot at
      either end. */
  predicate HostShaped(s: string)
  {
    |s| > 0 && HostOrDot(s) && s[0] != '.' && s[|s| - 1] != '.' && NoDoubleDot(s) && '.' in s
  }

  /** The optional scheme occupies the first `a` characters. */
  predicate SchemeAt(s: string, a: int)
  {
    a == 0 || (a == 7 && StartsWith(s, "http://")) || (a == 8 && StartsWith(s, "https://"))
  }

  /** Some split point `k >= b` leaves a host before it and a path after
      it (the regex engine's backtracking over the host/path boundary). */
  predicate HostPathFrom(r: string, b: nat)
    decreases |r| - b
  {
    && b <= |r|
    && ((HostShaped(r[..b]) && PathShaped(r[b..])) || (b < |r| && HostPathFrom(r, b + 1)))
  }

  /** The recogniser used by validation: an optional scheme, then a host
      and a path. */
  predicate UrlShaped(s: string)
  {
    || HostPathFrom(s, 0)
    || (StartsWith(s, "http://") && HostPathFrom(s[7..], 0))
    || (StartsWith(s, "https://") && HostPathFrom(s[8..], 0))
  }

  /** The split points the recogniser searches for, stated directly. */
  ghost predicate SplitsAt(s: string, a: int, b: int)
  {
    0 <= a <= b <= |s| && SchemeAt(s, a) && HostShaped(s[a..b]) && PathShaped(s[b..])
  }

  /** `URL_PATTERN.match(s)`: Python's `$` also matches just before a final
      newline. */
  predicate PatternMatches(s: string)
    ensures PatternMatches(s) <==>
      InUrlLanguage(s) || (|s| > 0 && s[|s| - 1] == '\n' && InUrlLanguage(s[..|s| - 1]))
  {
    UrlShapedIffLanguage(s);
    if |s| == 0 then UrlShaped(s)
    else
      UrlShapedIffLanguage(s[..|s| - 1]);
      UrlShaped(s) || (s[|s| - 1] == '\n' && UrlShaped(s[..|s| - 1]))
  }

  // ---------------------------------------------------------------------
  // The recogniser accepts exactly the grammar's language

  /** The index of the first '.' at or after `from`, or `|s|`. */
  function NextDot(s: string, from: nat): (k: nat)
    requires from <= |s|
    decreases |s| - from
    ensures from <= k <= |s|
    ensures k < |s| ==> s[k] == '.'
    ensures forall i :: from <= i < k ==> s[i] != '.'
  {
    if from == |s| || s[from] == '.' then from else NextDot(s, from + 1)
  }

  lemma {:induction false} DotLabelsAreShaped(s: string)
    decreases |s|
    requires IsDotLabels(s)
    ensures DotLabelsShaped(s)
  {
    var k :| 2 <= k <= |s| && IsLabel(s[1..k]) && (k == |s| || IsDotLabels(s[k..]));
    assert forall i :: 1 <= i < k ==> IsHostChar(s[i]) by {
      forall i | 1 <= i < k ensures IsHostChar(s[i]) {
        assert s[i] == s[1..k][i - 1];
      }
    }
    if k < |s| {
      var t := s[k..];
      DotLabelsAreShaped(t);
      assert forall i :: k <= i < |s| ==> s[i] == t[i - k];
      forall i | 0 <= i < |s| ensures !DoubleDotAt(s, i) {
        if i >= k {
          assert !DoubleDotAt(t, i - k);
        }
      }
    }
  }

  lemma {:induction false} ShapedAreDotLabels(s: string)
    decreases |s|
    requires DotLabelsShaped(s)
    ensures IsDotLabels(s)
  {
    var k := NextDot(s, 1);
    assert !DoubleDotAt(s, 0);
    assert IsLabel(s[1..k]) by {
      forall i | 0 <= i < k - 1 ensures IsHostChar(s[1..k][i]) {
        assert s[1..k][i] == s[i + 1];
      }
    }
    if k < |s| {
      var t := s[k..];
      assert |t| >= 2;
      assert forall i :: 0 <= i < |t| ==> t[i] == s[k + i];
      forall i | 0 <= i < |t| ensures !DoubleDotAt(t, i) {
        assert !DoubleDotAt(s, k + i);
      }
      assert DotLabelsShaped(t);
      ShapedAreDotLabels(t);
    }
  }

  lemma DotLabelsIffShaped(s: string)
    ensures IsDotLabels(s) <==> DotLabelsShaped(s)
  {
    if IsDotLabels(s) {
      DotLabelsAreShaped(s);
    }
    if DotLabelsShaped(s) {
      ShapedAreDotLabels(s);
    }
  }

  lemma HostIffShaped(s: string)
    ensures IsHost(s) <==> HostShaped(s)
  {
    if IsHost(s) {
      var k :| 1 <= k < |s| && IsLabel(s[..k]) && IsDotLabels(s[k..]);
      var t := s[k..];
      DotLabelsIffShaped(t);
      assert forall i :: 0 <= i < k ==> IsHostChar(s[i]) by {
        forall i | 0 <= i < k ensures IsHostChar(s[i]) {
          assert s[i] == s[..k][i];
        }
      }
      assert forall i :: k <= i < |s| ==> s[i] == t[i - k];
      assert s[k] == '.';
      forall i | 0 <= i < |s| ensures !DoubleDotAt(s, i) {
        if i >= k {
          assert !DoubleDotAt(t, i - k);
        } else if i == k - 1 {
          assert IsHostChar(s[i]);
        } else {
          assert IsHostChar(s[i]);
        }
      }
      assert HostShaped(s);
    } else if HostShaped(s) {
      var k := NextDot(s, 0);
      assert k < |s|;
      assert IsLabel(s[..k]) by {
        forall i | 0 <= i < k ensures IsHostChar(s[..k][i]) {
          assert s[..k][i] == s[i];
        }
      }
      var t := s[k..];
      assert forall i :: 0 <= i < |t| ==> t[i] == s[k + i];
      forall i | 0 <= i < |t| ensures !DoubleDotAt(t, i) {
        assert !DoubleDotAt(s, k + i);
      }
      assert DotLabelsShaped(t);
      DotLabelsIffShaped(t);
      assert false;
    }
  }

  lemma SchemeAtIffScheme(s: string, a: int)
    requires 0 <= a <= |s|
    ensures SchemeAt(s, a) <==> IsScheme(s[..a])
  {
    if IsScheme(s[..a]) {
      assert |s[..a]| == a;
    }
  }

  lemma {:induction false} HostPathFromIff(r: string, b: nat)
    decreases |r| - b
    ensures HostPathFrom(r, b) <==> exists k :: b <= k <= |r| && HostShaped(r[..k]) && PathShaped(r[k..])
  {
    if b < |r| {
      HostPathFromIff(r, b + 1);
    }
  }

  /** A recogniser success yields split points. */
  lemma ShapedHasSplit(s: string)
    requires UrlShaped(s)
    ensures exists a, b :: SplitsAt(s, a, b)
  {
    if HostPathFrom(s, 0) {
      HostPathFromIff(s, 0);
      var k :| 0 <= k <= |s| && HostShaped(s[..k]) && PathShaped(s[k..]);
      assert s[0..k] == s[..k];
      assert SplitsAt(s, 0, k);
    } else if StartsWith(s, "http://") && HostPathFrom(s[7..], 0) {
      var r := s[7..];
      HostPathFromIff(r, 0);
      var k :| 0 <= k <= |r| && HostShaped(r[..k]) && PathShaped(r[k..]);
      assert r[..k] == s[7..7 + k] && r[k..] == s[7 + k..];
      assert SplitsAt(s, 7, 7 + k);
    } else {
      var r := s[8..];
      HostPathFromIff(r, 0);
      var k :| 0 <= k <= |r| && HostShaped(r[..k]) && PathShaped(r[k..]);
      assert r[..k] == s[8..8 + k] && r[k..] == s[8 + k..];
      assert SplitsAt(s, 8, 8 + k);
    }
  }

  /** Split points make the recogniser succeed. */
  lemma SplitIsShaped(s: string, a: int, b: int)
    requires SplitsAt(s, a, b)
    ensures UrlShaped(s)
  {
    var r := s[a..];
    assert r[..b - a] == s[a..b] && r[b - a..] == s[b..];
    HostPathFromIff(r, 0);
    assert HostPathFrom(r, 0);
    if a == 0 {
      assert r == s;
    }
  }

  /** The recogniser holds exactly when split points exist. */
  lemma UrlShapedIffSplits(s: string)
    ensures UrlShaped(s) <==> exists a, b :: SplitsAt(s, a, b)
  {
    if UrlShaped(s) {
      ShapedHasSplit(s);
    }
    if exists a, b :: SplitsAt(s, a, b) {
      var a, b :| SplitsAt(s, a, b);
      SplitIsShaped(s, a, b);
    }
  }

  /** The flat recogniser and the grammar accept the same strings. */
  lemma UrlShapedIffLanguage(s: string)
    ensures UrlShaped(s) <==> InUrlLanguage(s)
  {
    UrlShapedIffSplits(s);
    forall a, b | 0 <= a <= b <= |s|
      ensures SplitsAt(s, a, b) <==> (IsScheme(s[..a]) && IsHost(s[a..b]) && PathShaped(s[b..]))
    {
      SchemeAtIffScheme(s, a);
      HostIffShaped(s[a..b]);
    }
  }

  /** Every character a match can contain is a path character, and none of
      those is whitespace. */
  lemma PathCharNotSpace(c: char)
    requires IsPathChar(c)
    ensures !IsSpace(c)
  {
    if !IsWordChar(c) {
      var k :| 0 <= k < |"-.,@?^=%&:/~+#"| && "-.,@?^=%&:/~+#"[k] == c;
    }
  }

  lemma SchemeCharsArePathChars(s: string, a: int, i: int)
    requires SchemeAt(s, a) && 0 <= i < a
    ensures IsPathChar(s[i])
  {
    if a == 7 {
      assert s[..7] == "http://";
      assert s[i] == "http://"[i];
    } else {
      assert s[..8] == "https://";
      assert s[i] == "https://"[i];
    }
  }

  /** No string containing whitespace (a space in particular) is accepted
      by the end-anchored recogniser, and every accepted string has a host
      containing a dot. */
  lemma MatchShape(s: string)
    requires UrlShaped(s)
    ensures forall i :: 0 <= i < |s| ==> !IsSpace(s[i])
    ensures exists a, b :: 0 <= a < b <= |s| && HostShaped(s[a..b])
  {
    UrlShapedIffSplits(s);
    var a, b :| SplitsAt(s, a, b);
    var host, path := s[a..b], s[b..];
    forall i | 0 <= i < |s| ensures !IsSpace(s[i]) {
      if i < a {
        SchemeCharsArePathChars(s, a, i);
      } else if i < b {
        assert s[i] == host[i - a];
        assert IsHostChar(host[i - a]) || host[i - a] == '.';
      } else {
        assert s[i] == path[i - b];
        assert i - b < |path| - 1 || i - b == |path| - 1;
        assert IsPathChar(s[i]) || IsPathEndChar(s[i]);
      }
      assert IsPathChar(s[i]);
      PathCharNotSpace(s[i]);
    }
  }

  /** `MatchShape` for an accepted prefix of `s` that is all of `s` or
      leaves out one final newline. */
  lemma PrefixMatchShape(s: string, n: nat)
    requires n == |s| || (n + 1 == |s| && s[n] == '\n')
    requires UrlShaped(s[..n])
    ensures ' ' !in s
    ensures forall i :: 0 <= i < |s| - 1 ==> !IsSpace(s[i])
    ensures exists a, b :: 0 <= a < b <= |s| && HostShaped(s[a..b])
  {
    var t := s[..n];
    MatchShape(t);
    var a, b :| 0 <= a < b <= |t| && HostShaped(t[a..b]);
    assert s[a..b] == t[a..b];
    assert IsSpace(' ');
    forall i | 0 <= i < |s| ensures s[i] != ' ' && (i < |s| - 1 ==> !IsSpace(s[i])) {
      if i < n {
        assert s[i] == t[i];
      }
    }
  }

  /** The same for the pattern itself, where `$` may also match before a
      final newline: no space anywhere, no other whitespace before the last
      character, and a host containing a dot. */
  lemma PatternMatchShape(s: string)
    requires PatternMatches(s)
    ensures ' ' !in s
    ensures forall i :: 0 <= i < |s| - 1 ==> !IsSpace(s[i])
    ensures exists a, b :: 0 <= a < b <= |s| && HostShaped(s[a..b])
  {
    if UrlShaped(s) {
      assert s[..|s|] == s;
      PrefixMatchShape(s, |s|);
    } else {
      PrefixMatchShape(s, |s| - 1);
    }
  }

  /** A stripped string never ends in a newline, so Python's `$` behaves as
      an end-of-string anchor on it. */
  lemma StrippedMatch(u: string)
    ensures PatternMatches(Strip(u)) <==> UrlShaped(Strip(u))
  {
    StripTrims(u);
  }

  // ---------------------------------------------------------------------
  // validate_urls

  const NoValidUrls: string := "No valid URLs provided."

  /** `set(url.strip() for url in urls)` */
  function StrippedSet(urls: seq<string>): set<string>
  {
    set u | u in urls :: Strip(u)
  }

  /** The distinct stripped inputs that match the pattern. */
  function ValidSet(urls: seq<string>): set<string>
  {
    set u | u in StrippedSet(urls) && PatternMatches(u)
  }

  /** `url if url.startswith("http") else f"https://{url}"` */
  function AddScheme(u: string): (w: string)
    ensures StartsWith(w, "http")
    ensures w == u <==> StartsWith(u, "http")
    ensures w != u ==> |w| == |u| + 8 && w[..8] == "https://" && w[8..] == u
  {
    if StartsWith(u, "http") then u
    else
      var w := "https://" + u;
      assert w[..4] == "http";
      w
  }

  /** Every output carries a scheme; an input that already starts with
      `http` is kept as it is, any other gets `https://` in front. */
  function AddSchemes(valid: seq<string>): (r: seq<string>)
    ensures |r| == |valid|
    ensures forall i :: 0 <= i < |valid| ==> r[i] == AddScheme(valid[i])
    ensures forall i :: 0 <= i < |valid| ==> StartsWith(r[i], "http")
    ensures forall i :: 0 <= i < |valid| ==> (r[i] == valid[i] <==> StartsWith(valid[i], "http"))
    ensures forall i :: 0 <= i < |valid| && r[i] != valid[i] ==> |r[i]| == |valid[i]| + 8 && r[i][..8] == "https://" && r[i][8..] == valid[i]
  {
    seq(|valid|, i requires 0 <= i < |valid| => AddScheme(valid[i]))
  }

  /** `order` lists the elements of `s`, each once: one possible iteration
      order of a Python set. */
  ghost predicate Enumerates(order: seq<string>, s: set<string>)
  {
    Distinct(order) && forall x :: x in order <==> x in s
  }

  /** The loop over the set: the matching entries, in iteration order. */
  function KeepMatching(order: seq<string>): (valid: seq<string>)
    ensures forall x :: x in valid <==> x in order && PatternMatches(x)
    ensures Distinct(order) ==> Distinct(valid)
  {
    if order == [] then []
    else
      var init := order[..|order| - 1];
      var last := order[|order| - 1];
      assert forall x :: x in order <==> x in init || x == last;
      KeepMatching(init) + (if PatternMatches(last) then [last] else [])
  }

  lemma KeepMatchingSnoc(order: seq<string>, u: string)
    ensures KeepMatching(order + [u]) == KeepMatching(order) + (if PatternMatches(u) then [u] else [])
  {
    assert (order + [u])[..|order|] == order;
  }

  /** The outcomes the loop can produce when the matching entries form
      `valid`: the error when there are none, otherwise each entry once,
      scheme added, in one of the orders a Python set may yield. */
  ghost predicate Outcome(valid: set<string>, r: Result<seq<string>, string>)
  {
    match r
    case Failure(e) => e == NoValidUrls && valid == {}
    case Success(out) =>
      && valid != {}
      && exists order :: Enumerates(order, valid) && out == AddSchemes(order)
  }

  /** What `validate_urls` may return for `urls`. */
  ghost predicate IsValidation(urls: seq<string>, r: Result<seq<string>, string>)
  {
    Outcome(ValidSet(urls), r)
  }

  /** Filtering an enumeration of the stripped inputs yields an enumeration
      of the valid ones. */
  lemma KeepMatchingEnumerates(urls: seq<string>, order: seq<string>)
    requires Enumerates(order, StrippedSet(urls))
    ensures Enumerates(KeepMatching(order), ValidSet(urls))
  {
  }

  /** The list comprehension followed by `set(...)`. */
  lemma StrippedListSet(urls: seq<string>, stripped: seq<string>)
    requires |stripped| == |urls|
    requires forall i :: 0 <= i < |urls| ==> stripped[i] == Strip(urls[i])
    ensures (set u | u in stripped) == StrippedSet(urls)
  {
    forall x | x in StrippedSet(urls) ensures x in stripped {
      var u :| u in urls && x == Strip(u);
      var i :| 0 <= i < |urls| && urls[i] == u;
      assert stripped[i] == x;
    }
  }

  /** An enumeration of a set is as long as the set. */
  lemma EnumerationSize(order: seq<string>, valid: set<string>)
    requires Enumerates(order, valid)
    ensures |order| == |valid|
  {
    assert (set x | x in order) == valid;
    DistinctCardinality(order);
  }

  /** Adding schemes along an enumeration: every output comes from an
      element and every element yields an output. */
  lemma EnumerationOutputs(order: seq<string>, valid: set<string>)
    requires Enumerates(order, valid)
    ensures forall x :: x in AddSchemes(order) ==> exists u :: u in valid && x == AddScheme(u)
    ensures forall u :: u in valid ==> AddScheme(u) in AddSchemes(order)
  {
    var out := AddSchemes(order);
    forall x | x in out ensures exists u :: u in valid && x == AddScheme(u) {
      var i :| 0 <= i < |out| && out[i] == x;
      assert order[i] in valid && x == AddScheme(order[i]);
    }
    forall u | u in valid ensures AddScheme(u) in out {
      var i :| 0 <= i < |order| && order[i] == u;
      assert out[i] == AddScheme(u);
    }
  }

  /** Whatever the order: one output per element of `valid`, each derived
      from such an element, none missing; the error exactly when `valid`
      is empty. */
  lemma OutcomeContents(valid: set<string>, r: Result<seq<string>, string>)
    requires Outcome(valid, r)
    ensures r.Failure? <==> valid == {}
    ensures r.Failure? ==> r.error == NoValidUrls
    ensures r.Success? ==> |r.value| == |valid|
    ensures r.Success? ==> forall x :: x in r.value ==> exists u :: u in valid && x == AddScheme(u)
    ensures r.Success? ==> forall u :: u in valid ==> AddScheme(u) in r.value
  {
    if r.Success? {
      var order :| Enumerates(order, valid) && r.value == AddSchemes(order);
      EnumerationSize(order, valid);
      EnumerationOutputs(order, valid);
    }
  }

  /** `validate_urls` in terms of its input list. */
  lemma ValidationContents(urls: seq<string>, r: Result<seq<string>, string>)
    requires IsValidation(urls, r)
    ensures r.Failure? <==> ValidSet(urls) == {}
    ensures r.Failure? ==> r.error == NoValidUrls
    ensures r.Success? ==> |r.value| == |ValidSet(urls)|
    ensures r.Success? ==> forall x :: x in r.value ==> exists u :: u in ValidSet(urls) && x == AddScheme(u)
    ensures r.Success? ==> forall u :: u in ValidSet(urls) ==> AddScheme(u) in r.value
  {
    OutcomeContents(ValidSet(urls), r);
  }

  /** Putting `https://` in front of a matching URL without a scheme
      keeps it matching: the original becomes the host and path after the
      new scheme. */
  lemma AddSchemeKeepsMatch(u: string)
    requires UrlShaped(u)
    ensures UrlShaped(AddScheme(u))
  {
    if !StartsWith(u, "http") {
      ShapedHasSplit(u);
      var a, b :| SplitsAt(u, a, b);
      assert a == 0 by {
        assert StartsWith(u, "http://") ==> u[..4] == u[..7][..4];
        assert StartsWith(u, "https://") ==> u[..4] == u[..8][..4];
      }
      var w := AddScheme(u);
      assert w == "https://" + u;
      assert w[8..8 + b] == u[..b] && w[8 + b..] == u[b..];
      assert StartsWith(w, "https://");
      SplitIsShaped(w, 8, 8 + b);
    }
  }

  /** Every URL `validate_urls` returns matches the pattern. */
  lemma OutputsMatch(urls: seq<string>, r: Result<seq<string>, string>)
    requires IsValidation(urls, r) && r.Success?
    ensures forall x :: x in r.value ==> PatternMatches(x)
  {
    ValidationContents(urls, r);
    forall x | x in r.value ensures PatternMatches(x) {
      var u :| u in ValidSet(urls) && x == AddScheme(u);
      var v :| v in urls && u == Strip(v);
      StrippedMatch(v);
      AddSchemeKeepsMatch(u);
    }
  }

  /** The `for url in urls` loop over the deduplicated entries: visits the
      set in some order and keeps the entries that match. */
  method PartitionByPattern(all: set<string>) returns (valid: seq<string>, ghost order: seq<string>)
    ensures Distinct(valid)
    ensures forall x :: x in valid <==> x in all && PatternMatches(x)
    ensures Enumerates(order, all)
    ensures valid == KeepMatching(order)
  {
    var pending := all;
    valid := [];
    order := [];
    while pending != {}
      invariant Distinct(order)
      invariant forall x :: x in order ==> x !in pending
      invariant forall x :: x in all <==> x in order || x in pending
      invariant valid == KeepMatching(order)
      decreases |pending|
    {
      var u :| u in pending;
      KeepMatchingSnoc(order, u);
      order := order + [u];
      pending := pending - {u};
      if PatternMatches(u) {
        valid := valid + [u];
      }
    }
  }

  method ValidateUrls(urls: seq<string>) returns (r: Result<seq<string>, string>)
    ensures IsValidation(urls, r)
    ensures r.Failure? <==> ValidSet(urls) == {}
    ensures r.Success? ==> |r.value| == |ValidSet(urls)|
    ensures r.Success? ==> forall x :: x in r.value ==> PatternMatches(x)
  {
    var stripped := seq(|urls|, i requires 0 <= i < |urls| => Strip(urls[i]));
    var all := set u | u in stripped;
    StrippedListSet(urls, stripped);
    var valid, order := PartitionByPattern(all);
    KeepMatchingEnumerates(urls, order);
    if valid == [] {
      assert forall x :: x !in ValidSet(urls);
      r := Failure(NoValidUrls);
    } else {
      assert valid[0] in ValidSet(urls);
      r := Success(AddSchemes(valid));
    }
    ValidationContents(urls, r);
    if r.Success? {
      OutputsMatch(urls, r);
    }
  }

  // ---------------------------------------------------------------------
  // Consequences for particular inputs

  /** Exhibiting the split points proves a match. */
  lemma MatchBySplit(s: string, a: int, b: int)
    requires SplitsAt(s, a, b)
    ensures UrlShaped(s) && PatternMatches(s)
  {
    UrlShapedIffSplits(s);
  }

  lemma ExampleHostsAreShaped(s: string)
    requires s == "example.com" || s == "good.com" || s == "x.com"
    ensures UrlShaped(s) && PatternMatches(s)
  {
    var k := if s == "example.com" then 7 else if s == "good.com" then 4 else 1;
    assert s[k] == '.';
    assert s[0..|s|] == s;
    assert PathShaped(s[|s|..]);
    assert HostShaped(s[0..|s|]);
    MatchBySplit(s, 0, |s|);
  }

  lemma SchemedExampleIsShaped()
    ensures UrlShaped("https://x.com") && PatternMatches("https://x.com")
  {
    var s := "https://x.com";
    assert s[..8] == "https://";
    assert s[8..13] == "x.com";
    assert s[13..] == [];
    assert HostShaped("x.com") by {
      var h := "x.com";
      assert h[1] == '.';
    }
    MatchBySplit(s, 8, 13);
  }

  lemma NotAUrlIsRejected()
    ensures !PatternMatches("not a url")
  {
    var s := "not a url";
    if UrlShaped(s) {
      MatchShape(s);
    }
    assert s[|s| - 1] != '\n';
  }

  lemma StripUnframed(s: string)
    requires |s| > 0 && !IsSpace(s[0]) && !IsSpace(s[|s| - 1])
    ensures Strip(s) == s
  {
    assert StripLeft(s) == s;
  }

  /** One leading blank and one trailing newline are removed. */
  lemma StripFramed(s: string)
    requires |s| >= 3 && IsSpace(s[0]) && IsSpace(s[|s| - 1])
    requires !IsSpace(s[1]) && !IsSpace(s[|s| - 2])
    ensures Strip(s) == s[1..|s| - 1]
  {
    var t := s[1..];
    assert StripLeft(t) == t;
    assert StripLeft(s) == t;
    var u := t[..|t| - 1];
    assert u == s[1..|s| - 1];
    assert StripRight(u) == u;
    assert StripRight(t) == u;
  }

  lemma StrippedPair(a: string, b: string)
    ensures StrippedSet([a, b]) == {Strip(a), Strip(b)}
  {
    var urls := [a, b];
    assert forall u :: u in urls <==> u == a || u == b;
  }

  /** The valid set of a two-element list: its stripped entries that
      match. */
  lemma ValidPair(a: string, b: string)
    ensures forall x :: x in ValidSet([a, b]) <==> (x == Strip(a) || x == Strip(b)) && PatternMatches(x)
  {
    StrippedPair(a, b);
  }

  lemma SetOfOne<T>(v: set<T>, p: T)
    requires forall x :: x in v <==> x == p
    ensures v == {p}
  {
  }

  lemma SetOfTwo<T>(v: set<T>, p: T, q: T)
    requires forall x :: x in v <==> x == p || x == q
    ensures v == {p, q}
  {
  }

  /** Two entries that strip to the same matching string count once. */
  lemma SameValidPair(a: string, b: string)
    requires PatternMatches(Strip(a)) && Strip(a) == Strip(b)
    ensures ValidSet([a, b]) == {Strip(a)}
  {
    var v, p := ValidSet([a, b]), Strip(a);
    ValidPair(a, b);
    assert p in v;
    SetOfOne(v, p);
  }

  lemma SecondValidOnly(a: string, b: string)
    requires !PatternMatches(Strip(a)) && PatternMatches(Strip(b))
    ensures ValidSet([a, b]) == {Strip(b)}
  {
    var v, q := ValidSet([a, b]), Strip(b);
    ValidPair(a, b);
    assert q in v;
    SetOfOne(v, q);
  }

  lemma BothValid(a: string, b: string)
    requires PatternMatches(Strip(a)) && PatternMatches(Strip(b))
    ensures ValidSet([a, b]) == {Strip(a), Strip(b)}
  {
    var v, p, q := ValidSet([a, b]), Strip(a), Strip(b);
    ValidPair(a, b);
    assert p in v && q in v;
    SetOfTwo(v, p, q);
  }

  /** An output list drawn from `valid`, one entry per element. */
  lemma SingleOutput(valid: set<string>, v: string, out: seq<string>)
    requires valid == {v} && |out| == |valid|
    requires forall x :: x in out ==> exists u :: u in valid && x == AddScheme(u)
    ensures out == [AddScheme(v)]
  {
    assert |out| == 1 && out[0] in out;
  }

  lemma PairOutput(valid: set<string>, a: string, b: string, w: string, out: seq<string>)
    requires valid == {a, b} && a != b && |out| == |valid|
    requires AddScheme(a) == w && AddScheme(b) == w
    requires forall x :: x in out ==> exists u :: u in valid && x == AddScheme(u)
    ensures out == [w, w]
  {
    assert |out| == 2 && out[0] in out && out[1] in out;
  }

  /** A single valid entry gives a single output, whatever the order. */
  lemma SingleValid(valid: set<string>, v: string, r: Result<seq<string>, string>)
    requires Outcome(valid, r)
    requires valid == {v}
    ensures r == Success([AddScheme(v)])
  {
    OutcomeContents(valid, r);
    SingleOutput(valid, v, r.value);
  }

  /** Two valid entries that gain the same scheme give the same output
      twice. */
  lemma CollidingPair(valid: set<string>, a: string, b: string, w: string, r: Result<seq<string>, string>)
    requires Outcome(valid, r)
    requires valid == {a, b} && a != b
    requires AddScheme(a) == w && AddScheme(b) == w
    ensures r == Success([w, w])
  {
    OutcomeContents(valid, r);
    PairOutput(valid, a, b, w, r.value);
  }

  lemma DuplicatesValidSet(a: string, b: string)
    requires a == "example.com" && b == " example.com\n"
    ensures ValidSet([a, b]) == {a}
  {
    StripFramed(b);
    assert b[1..12] == a;
    StripUnframed(a);
    ExampleHostsAreShaped(a);
    SameValidPair(a, b);
  }

  /** The two example hosts get the `https://` scheme. */
  lemma SchemeAddedToBare(a: string, w: string)
    requires (a == "example.com" && w == "https://example.com") || (a == "good.com" && w == "https://good.com")
    ensures AddScheme(a) == w
  {
    assert a[..4][0] == a[0];
  }

  /** Duplicates collapse and the scheme is added:
      `["example.com", " example.com\n"]` validates to
      `["https://example.com"]`. */
  lemma ValidateDuplicates(r: Result<seq<string>, string>)
    requires IsValidation(["example.com", " example.com\n"], r)
    ensures r == Success(["https://example.com"])
  {
    DuplicatesValidSet("example.com", " example.com\n");
    SchemeAddedToBare("example.com", "https://example.com");
    SingleValid(ValidSet(["example.com", " example.com\n"]), "example.com", r);
  }

  lemma DropsInvalidValidSet(a: string, b: string)
    requires a == "not a url" && b == "good.com"
    ensures ValidSet([a, b]) == {b}
  {
    StripUnframed(a);
    StripUnframed(b);
    NotAUrlIsRejected();
    ExampleHostsAreShaped(b);
    SecondValidOnly(a, b);
  }

  /** An invalid entry is dropped, not fatal:
      `["not a url", "good.com"]` validates to `["https://good.com"]`. */
  lemma ValidateDropsInvalid(r: Result<seq<string>, string>)
    requires IsValidation(["not a url", "good.com"], r)
    ensures r == Success(["https://good.com"])
  {
    DropsInvalidValidSet("not a url", "good.com");
    SchemeAddedToBare("good.com", "https://good.com");
    SingleValid(ValidSet(["not a url", "good.com"]), "good.com", r);
  }

  lemma MayRepeatValidSet(a: string, b: string)
    requires a == "x.com" && b == "https://x.com"
    ensures ValidSet([a, b]) == {a, b}
  {
    StripUnframed(a);
    StripUnframed(b);
    ExampleHostsAreShaped(a);
    SchemedExampleIsShaped();
    BothValid(a, b);
  }

  lemma SchemesCollide(a: string, b: string)
    requires a == "x.com" && b == "https://x.com"
    ensures a != b && AddScheme(a) == b && AddScheme(b) == b
  {
    assert a[..4][0] == 'x';
    assert b[..4] == "http";
  }

  /** Deduplication happens before the scheme is added, so the output can
      hold the same URL twice. */
  lemma ValidateMayRepeat(r: Result<seq<string>, string>)
    requires IsValidation(["x.com", "https://x.com"], r)
    ensures r == Success(["https://x.com", "https://x.com"])
  {
    MayRepeatValidSet("x.com", "https://x.com");
    SchemesCollide("x.com", "https://x.com");
    CollidingPair(ValidSet(["x.com", "https://x.com"]), "x.com", "https://x.com", "https://x.com", r);
  }

  /** `"httpbin.org"` already starts with `"http"` and is left as it is. */
  lemma HttpPrefixIsNotAScheme()
    ensures AddScheme("httpbin.org") == "httpbin.org"
  {
    assert StartsWith("httpbin.org", "http");
  }
}
