/** YouTubeSubtitleExtractor.extract_video_id (server.py:198-210): try two
    regular expressions in order with re.search and return the first
    capture group of the first that matches anywhere in the URL, or None.
    Each pattern is written out as a matcher at one position plus a
    leftmost search over positions. */
module VideoId {
  import opened Text


  /** The two patterns, in the order they are tried:
      Direct is `(?:youtube\.com\/watch\?v=|youtu\.be\/|youtube\.com\/embed\/)([^&\n?#]+)`,
      Query is `youtube\.com\/watch\?.*v=([^&\n?#]+)`. */
  datatype Pattern = Direct | Query

  const WatchKey: string := "youtube.com/watch?v="
  const ShortKey: string := "youtu.be/"
  const EmbedKey: string := "youtube.com/embed/"
  const WatchQuery: string := "youtube.com/watch?"

  /** The alternatives of the Direct pattern's prefix group, in order. */
  const DirectKeys: seq<string> := [WatchKey, ShortKey, EmbedKey]

  /** Every character of `id` may appear in a captured id. */
  predicate IsIdText(id: string) {
    forall k :: 0 <= k < |id| ==> InClass(id[k], IdChar)
  }

  /** What every capture is: a non-empty run of id characters taken from `s`. */
  predicate Captured(s: string, id: string) {
    id != [] && IsIdText(id) && Contains(s, id)
  }

  /** The greedy `[^&\n?#]+` capture starting at index `k`, if any. */
  function CaptureAt(s: string, k: nat): (r: Option<string>)
    requires k <= |s|
    ensures r.Some? ==> Captured(s, r.value) && k + |r.value| <= |s| && s[k..k + |r.value|] == r.value
    ensures r.Some? ==> k + |r.value| == |s| || !InClass(s[k + |r.value|], IdChar)
    ensures r.None? <==> k == |s| || !InClass(s[k], IdChar)
  {
    var n := Run(s[k..], IdChar);
    RunInClass(s[k..], IdChar);
    ContainsAt(s, s[k..k + n]);
    assert OccursAt(s, s[k..k + n], k);
    if n == 0 then None else Some(s[k..k + n])
  }

  /** The first of `keys` that `t` starts with: the alternation tries its
      literals in order. */
  function FirstKey(t: string, keys: seq<string>): (r: Option<string>)
    ensures r.Some? ==> r.value in keys && StartsWith(t, r.value)
  {
    if keys == [] then None
    else if StartsWith(t, keys[0]) then Some(keys[0])
    else FirstKey(t, keys[1..])
  }

  /** The Direct pattern anchored at index `q`. When the capture fails no
      other alternative can match, as the three literals exclude each other. */
  function DirectAt(s: string, q: nat): (r: Option<string>)
    requires q <= |s|
    ensures r.Some? ==> Captured(s, r.value)
  {
    match FirstKey(s[q..], DirectKeys)
    case None => None
    case Some(key) => CaptureAt(s, q + |key|)
  }

  /** The `v=` at index `j` is followed by a capturable character. */
  predicate ParamAt(s: string, j: nat) {
    j + 3 <= |s| && s[j] == 'v' && s[j + 1] == '=' && InClass(s[j + 2], IdChar)
  }

  /** The greedy `.*` gives back characters until `v=` and one id
      character fit: the last `j` in [lo, hi - 3] with ParamAt, if any. */
  function LastParam(s: string, lo: nat, hi: nat): (r: Option<nat>)
    decreases hi
    ensures r.Some? ==> lo <= r.value && r.value + 3 <= hi && ParamAt(s, r.value)
    ensures r.Some? ==> forall j :: r.value < j && j + 3 <= hi ==> !ParamAt(s, j)
    ensures r.None? ==> forall j :: lo <= j && j + 3 <= hi ==> !ParamAt(s, j)
  {
    if hi < lo + 3 then None
    else if ParamAt(s, hi - 3) then Some(hi - 3)
    else LastParam(s, lo, hi - 1)
  }

  /** The Query pattern anchored at index `q`: after the literal prefix the
      match may not leave the current line, and the capture follows the
      last suitable `v=` on it. */
  function QueryAt(s: string, q: nat): (r: Option<string>)
    requires q <= |s|
    ensures r.Some? ==> Captured(s, r.value)
  {
    if !StartsWith(s[q..], WatchQuery) then None
    else
      var p := q + |WatchQuery|;
      var lineEnd := p + Run(s[p..], NotNewline);
      match LastParam(s, p, lineEnd)
      case None => None
      case Some(j) => CaptureAt(s, j + 2)
  }

  /** The pattern anchored at index `q`; no match starts past the end. */
  function MatchAt(pattern: Pattern, s: string, q: nat): (r: Option<string>)
    ensures r.Some? ==> Captured(s, r.value)
  {
    if q > |s| then None
    else
      match pattern
      case Direct => DirectAt(s, q)
      case Query => QueryAt(s, q)
  }

  /** The first present value among m(q), m(q + 1), ..., m(end). */
  function FirstSome<T>(m: nat -> Option<T>, q: nat, end: nat): Option<T>
    requires q <= end + 1
    decreases end + 1 - q
  {
    if q == end + 1 then None
    else if m(q).Some? then m(q)
    else FirstSome(m, q + 1, end)
  }

  /** Nothing is found exactly when nothing is present in the range. */
  lemma {:induction false} FirstSomeNone<T>(m: nat -> Option<T>, q: nat, end: nat)
    requires q <= end + 1
    ensures FirstSome(m, q, end).None? <==> forall k :: q <= k <= end ==> m(k).None?
    decreases end + 1 - q
  {
    if q <= end && m(q).None? {
      FirstSomeNone(m, q + 1, end);
    }
  }

  /** What is found is present at some position of the range. */
  lemma {:induction false} FirstSomeFrom<T>(m: nat -> Option<T>, q: nat, end: nat)
    requires q <= end + 1
    ensures FirstSome(m, q, end).Some? ==> exists k :: q <= k <= end && FirstSome(m, q, end) == m(k)
    decreases end + 1 - q
  {
    if q <= end && m(q).None? {
      FirstSomeFrom(m, q + 1, end);
    }
  }

  /** Positions with nothing present before `r` can be skipped. */
  lemma {:induction false} FirstSomeSkip<T>(m: nat -> Option<T>, q: nat, r: nat, end: nat)
    requires q <= r <= end + 1
    requires forall i :: q <= i < r ==> m(i).None?
    ensures FirstSome(m, q, end) == FirstSome(m, r, end)
    decreases r - q
  {
    if q < r {
      FirstSomeSkip(m, q + 1, r, end);
    }
  }

  /** When `k` is the leftmost position with a value, that value is found. */
  lemma FirstSomeLeftmost<T>(m: nat -> Option<T>, q: nat, k: nat, end: nat)
    requires q <= k <= end
    requires m(k).Some?
    requires forall i :: q <= i < k ==> m(i).None?
    ensures FirstSome(m, q, end) == m(k)
  {
    FirstSomeSkip(m, q, k, end);
  }

  /** The pattern as a function of the index it is tried at. */
  function Matcher(pattern: Pattern, s: string): (m: nat -> Option<string>)
    ensures forall k: nat :: m(k) == MatchAt(pattern, s, k)
  {
    (k: nat) => MatchAt(pattern, s, k)
  }

  /** re.search from index `q`: the match at the leftmost position that has one. */
  function Search(pattern: Pattern, s: string, q: nat): (r: Option<string>)
    requires q <= |s| + 1
    ensures r.Some? ==> Captured(s, r.value)
  {
    FirstSomeFrom(Matcher(pattern, s), q, |s|);
    FirstSome(Matcher(pattern, s), q, |s|)
  }

  /** The search finds nothing exactly when no position matches. */
  lemma SearchNone(pattern: Pattern, s: string, q: nat)
    requires q <= |s| + 1
    ensures Search(pattern, s, q).None? <==> forall k :: q <= k <= |s| ==> MatchAt(pattern, s, k).None?
  {
    FirstSomeNone(Matcher(pattern, s), q, |s|);
  }

  /** When `k` is the leftmost position with a match, the search returns
      the match at `k`. */
  lemma SearchLeftmost(pattern: Pattern, s: string, q: nat, k: nat)
    requires q <= k <= |s|
    requires MatchAt(pattern, s, k).Some?
    requires forall i :: q <= i < k ==> MatchAt(pattern, s, i).None?
    ensures Search(pattern, s, q) == MatchAt(pattern, s, k)
  {
    FirstSomeLeftmost(Matcher(pattern, s), q, k, |s|);
  }

  /** The loop over the patterns: the first one with a match wins. */
  function FirstMatch(patterns: seq<Pattern>, url: string): (r: Option<string>)
    ensures r.Some? ==> Captured(url, r.value)
  {
    if patterns == [] then None
    else
      var m := Search(patterns[0], url, 0);
      if m.Some? then m else FirstMatch(patterns[1..], url)
  }

  /** extract_video_id: the first pattern's leftmost match, else the
      second's; whatever comes back is a capture taken from the URL. */
  function ExtractVideoId(url: string): (r: Option<string>)
    ensures r.Some? ==> Captured(url, r.value)
  {
    FirstMatch([Direct, Query], url)
  }

  /** An extracted id is non-empty, has none of `&`, `?`, `#` or a line
      break, and occurs in the URL; None comes back exactly when neither
      pattern matches anywhere. */
  lemma ExtractVideoIdProperties(url: string)
    ensures ExtractVideoId(url).Some? ==> Captured(url, ExtractVideoId(url).value)
    ensures ExtractVideoId(url).None? <==>
      forall k :: 0 <= k <= |url| ==> DirectAt(url, k).None? && QueryAt(url, k).None?
  {
    var direct := Search(Direct, url, 0);
    var query := Search(Query, url, 0);
    ExtractVideoIdFirst(url);
    SearchNone(Direct, url, 0);
    SearchNone(Query, url, 0);
    if direct.None? && query.None? {
      forall k | 0 <= k <= |url|
        ensures DirectAt(url, k).None? && QueryAt(url, k).None?
      {
        assert MatchAt(Direct, url, k).None?;
        assert MatchAt(Query, url, k).None?;
      }
    } else if direct.None? {
      var k :| 0 <= k <= |url| && MatchAt(Query, url, k).Some?;
      assert QueryAt(url, k).Some?;
    } else {
      var k :| 0 <= k <= |url| && MatchAt(Direct, url, k).Some?;
      assert DirectAt(url, k).Some?;
    }
  }

  /** The first pattern's search result when it finds one, else the second's. */
  lemma ExtractVideoIdFirst(url: string)
    ensures ExtractVideoId(url) ==
      if Search(Direct, url, 0).Some? then Search(Direct, url, 0) else Search(Query, url, 0)
  {
    assert [Direct, Query][0] == Direct && [Direct, Query][1..] == [Query];
    assert [Query][0] == Query && [Query][1..] == [];
    assert FirstMatch([Query], url) == Search(Query, url, 0);
  }

  /** Positions whose character is not `y` cannot start either pattern,
      so the search skips them. */
  lemma SearchSkips(pattern: Pattern, s: string, q: nat, r: nat)
    requires q <= r <= |s|
    requires 'y' !in s[q..r]
    ensures Search(pattern, s, q) == Search(pattern, s, r)
  {
    forall i | q <= i < r
      ensures MatchAt(pattern, s, i).None?
    {
      NoMatchWithoutY(pattern, s, i);
      assert s[i] == s[q..r][i - q];
    }
    FirstSomeSkip(Matcher(pattern, s), q, r, |s|);
  }

  /** Both patterns start with `y`, so no match starts at any other character. */
  lemma NoMatchWithoutY(pattern: Pattern, s: string, i: nat)
    requires i < |s| && s[i] != 'y'
    ensures MatchAt(pattern, s, i).None?
  {
    assert s[i..][0] == s[i];
    if pattern == Query {
      assert !StartsWith(s[i..], WatchQuery);
    } else {
      assert forall key :: key in DirectKeys ==> key[0] == 'y';
      assert FirstKey(s[i..], DirectKeys).None?;
    }
  }

  /** A URL made of a `y`-free host part and one of the three direct
      prefixes followed by an id yields that id. */
  lemma DirectUrl(host: string, key: string, id: string)
    requires key == WatchKey || key == ShortKey || key == EmbedKey
    requires 'y' !in host
    requires id != [] && IsIdText(id)
    ensures ExtractVideoId(host + key + id) == Some(id)
  {
    var url := host + key + id;
    var q := |host|;
    assert url[0..q] == host;
    SearchSkips(Direct, url, 0, q);
    DirectAtKey(host, key, id);
    assert Search(Direct, url, q) == MatchAt(Direct, url, q);
    ExtractVideoIdFirst(url);
  }

  /** The first pattern matches right after the host, capturing the id. */
  lemma DirectAtKey(host: string, key: string, id: string)
    requires key == WatchKey || key == ShortKey || key == EmbedKey
    requires id != [] && IsIdText(id)
    ensures DirectAt(host + key + id, |host|) == Some(id)
  {
    var url := host + key + id;
    Suffixes(host, key, id);
    DirectKeyFound(key, id);
    CaptureRest(url, |host| + |key|);
  }

  /** A non-empty tail of id characters is captured whole. */
  lemma CaptureRest(s: string, k: nat)
    requires k < |s| && IsIdText(s[k..])
    ensures CaptureAt(s, k) == Some(s[k..])
  {
    RunWhole(s[k..], IdChar);
    assert s[k..k + |s| - k] == s[k..];
  }

  lemma Suffixes(a: string, b: string, c: string)
    ensures (a + b + c)[..|a|] == a
    ensures (a + b + c)[|a|..] == b + c
    ensures (a + b + c)[|a| + |b|..] == c
    ensures |a + b + c| == |a| + |b| + |c|
  {
  }

  /** A string starting with one of the direct prefixes selects that prefix. */
  lemma DirectKeyFound(key: string, rest: string)
    requires key == WatchKey || key == ShortKey || key == EmbedKey
    ensures FirstKey(key + rest, DirectKeys) == Some(key)
  {
    var t := key + rest;
    assert StartsWith(t, key);
    assert DirectKeys[0] == WatchKey;
    assert DirectKeys[1..] == [ShortKey, EmbedKey];
    assert DirectKeys[1..][1..] == [EmbedKey];
    if key == ShortKey {
      assert t[5] == '.';
      assert !StartsWith(t, WatchKey);
      assert FirstKey(t, DirectKeys) == FirstKey(t, [ShortKey, EmbedKey]);
    } else if key == EmbedKey {
      assert t[12] == 'e';
      assert !StartsWith(t, WatchKey);
      assert t[5] == 'b';
      assert !StartsWith(t, ShortKey);
      assert FirstKey(t, DirectKeys) == FirstKey(t, [ShortKey, EmbedKey]);
      assert FirstKey(t, [ShortKey, EmbedKey]) == FirstKey(t, [EmbedKey]);
    }
  }

  /** The three canonical URL forms yield their id. */
  lemma ShortUrl(id: string)
    requires id != [] && IsIdText(id)
    ensures ExtractVideoId("https://youtu.be/" + id) == Some(id)
  {
    DirectUrl("https://", ShortKey, id);
    ShortUrlPrefix();
  }

  lemma ShortUrlPrefix()
    ensures "https://" + ShortKey == "https://youtu.be/"
  {
  }

  lemma WatchUrl(id: string)
    requires id != [] && IsIdText(id)
    ensures ExtractVideoId("https://www.youtube.com/watch?v=" + id) == Some(id)
  {
    DirectUrl("https://www.", WatchKey, id);
    WatchUrlPrefix();
  }

  lemma WatchUrlPrefix()
    ensures "https://www." + WatchKey == "https://www.youtube.com/watch?v="
  {
  }

  lemma EmbedUrl(id: string)
    requires id != [] && IsIdText(id)
    ensures ExtractVideoId("https://www.youtube.com/embed/" + id) == Some(id)
  {
    DirectUrl("https://www.", EmbedKey, id);
    EmbedUrlPrefix();
  }

  lemma EmbedUrlPrefix()
    ensures "https://www." + EmbedKey == "https://www.youtube.com/embed/"
  {
  }
}
