/** YouTubeSubtitleExtractor.convert_vtt_to_txt (server.py:426-473): keep
    the text lines of a WebVTT document once each, join them with spaces,
    cut the result into sentences at `[.!?]+\s+`, and emit each distinct
    sentence once, one per line. The file read at server.py:429-430 is
    replaced by the content string. */
module Txt {
  import opened Text
  import opened Vtt
  import opened Dedup

  /** Sentences and lines are deduplicated by themselves. */
  function Id(s: string): string {
    s
  }

  lemma HasKeyId(xs: seq<string>, s: string)
    ensures HasKey(xs, s, Id) <==> s in xs
  {
    if s in xs {
      var j :| 0 <= j < |xs| && xs[j] == s;
      assert Id(xs[j]) == s;
    }
  }

  /** The colon test of the skip condition, `':' in line and
      len(line.split(':')) >= 3`. */
  predicate ManyColons(line: string) {
    ':' in line && |Split(line, ':')| >= 3
  }

  /** The colon test holds exactly when the line has at least two colons:
      any `a:b:c` line is skipped, not only timestamps. */
  lemma ManyColonsCount(line: string)
    ensures ManyColons(line) <==> multiset(line)[':'] >= 2
  {
    JoinSplit(line, ':');
    if multiset(line)[':'] > 0 {
      assert ':' in multiset(line);
    }
  }

  /** The stripped lines the TXT converter skips (server.py:441-447):
      blank, header or metadata lines, anything with `-->`, and anything
      with two colons or more. */
  predicate TxtSkipped(line: string) {
    IsHeaderOrBlank(line) || Contains(line, "-->") || ManyColons(line)
  }

  /** The cleaned text a raw line contributes before deduplication: nothing
      when it is skipped or cleans to the empty string. */
  function Candidate(raw: string): (r: seq<string>)
    ensures |r| <= 1 && (r != [] ==> r[0] == CleanLine(raw))
    ensures r == [] <==>
      var line := Strip(raw);
      IsHeaderOrBlank(line) || Contains(line, "-->") || multiset(line)[':'] >= 2
      || AllSpace(StripTags(line))
    ensures r != [] ==> IsCleanText(r[0])
    ensures r != [] && NoNewline(raw) ==> NoNewline(r[0])
  {
    var line := Strip(raw);
    ManyColonsCount(line);
    var clean := CleanLine(raw);
    if TxtSkipped(line) || clean == [] then [] else [clean]
  }

  /** The candidates of lines[i..], in order. */
  function CandidatesFrom(lines: seq<string>, i: nat): seq<string>
    requires i <= |lines|
  {
    FlatMapRange(Candidate, lines, i, |lines|)
  }

  /** The first pass: the candidate lines, each kept the first time it occurs. */
  function UniqueLines(lines: seq<string>): seq<string> {
    KeepFirst([], CandidatesFrom(lines, 0), Id)
  }

  /** Length of the `[.!?]+\s+` delimiter starting at the beginning of `s`,
      or 0. Both runs are greedy; a shorter punctuation run cannot help,
      since the character after it is punctuation, not whitespace. */
  function DelimMatch(s: string): (m: nat)
    ensures m <= |s|
  {
    var p := Run(s, SentenceEnd);
    if p == 0 then 0
    else
      var w := Run(s[p..], Space);
      if w == 0 then 0 else p + w
  }

  /** `t` is one whole `[.!?]+\s+` delimiter. */
  ghost predicate IsDelim(t: string) {
    exists p :: 0 < p < |t| && AllIn(t[..p], SentenceEnd) && AllIn(t[p..], Space)
  }

  /** DelimMatch finds a delimiter at the head of `s` exactly when some
      prefix of `s` is one, and returns the longest such prefix. */
  lemma DelimMatchSpec(s: string)
    ensures DelimMatch(s) > 0 ==> IsDelim(s[..DelimMatch(s)])
    ensures forall j :: 0 < j <= |s| && IsDelim(s[..j]) ==> DelimMatch(s) >= j
  {
    if DelimMatch(s) > 0 {
      DelimMatchSound(s);
    }
    forall j | 0 < j <= |s| && IsDelim(s[..j])
      ensures DelimMatch(s) >= j
    {
      DelimMatchGreedy(s, j);
    }
  }

  lemma DelimMatchSound(s: string)
    requires DelimMatch(s) > 0
    ensures IsDelim(s[..DelimMatch(s)])
  {
    var m := DelimMatch(s);
    var p := Run(s, SentenceEnd);
    var w := Run(s[p..], Space);
    RunInClass(s, SentenceEnd);
    RunInClass(s[p..], Space);
    var t := s[..m];
    assert t[..p] == s[..p];
    assert t[p..] == s[p..][..w];
    assert AllIn(t[..p], SentenceEnd) && AllIn(t[p..], Space);
  }

  lemma DelimMatchGreedy(s: string, j: nat)
    requires 0 < j <= |s| && IsDelim(s[..j])
    ensures DelimMatch(s) >= j
  {
    var t := s[..j];
    var p :| 0 < p < |t| && AllIn(t[..p], SentenceEnd) && AllIn(t[p..], Space);
    forall k | 0 <= k < p
      ensures InClass(s[k], SentenceEnd)
    {
      assert s[k] == t[..p][k];
    }
    assert s[p] == t[p..][0];
    RunExact(s, SentenceEnd, p);
    forall k | 0 <= k < j - p
      ensures InClass(s[p..][k], Space)
    {
      assert s[p..][k] == t[p..][k];
    }
    RunAtLeast(s[p..], Space, j - p);
  }

  /** Length of the delimiter starting at index `k` of `s`, or 0. */
  function DelimAt(s: string, k: nat): nat
    requires k <= |s|
  {
    DelimMatch(s[k..])
  }

  /** No `[.!?]+\s+` delimiter starts anywhere in `s`. */
  predicate NoDelim(s: string) {
    forall k :: 0 <= k < |s| ==> DelimAt(s, k) == 0
  }

  /** re.split(r'[.!?]+\s+', s) once `cur` has been read since the last
      delimiter: the text between delimiters, found left to right without
      overlap, with an empty piece before a leading or after a trailing
      delimiter. */
  function PiecesFrom(s: string, cur: string): (r: seq<string>)
    decreases |s|
    ensures r != []
  {
    if s == [] then [cur]
    else
      var m := DelimMatch(s);
      if m > 0 then [cur] + PiecesFrom(s[m..], [])
      else PiecesFrom(s[1..], cur + [s[0]])
  }

  function SplitSentences(s: string): seq<string> {
    PiecesFrom(s, [])
  }

  /** The delimiters re.split consumes in `s`, left to right. */
  function DelimsFrom(s: string): seq<string>
    decreases |s|
  {
    if s == [] then []
    else
      var m := DelimMatch(s);
      if m > 0 then [s[..m]] + DelimsFrom(s[m..]) else DelimsFrom(s[1..])
  }

  /** The pieces with the delimiters put back between them. */
  function Interleave(pieces: seq<string>, delims: seq<string>): string
    requires |pieces| == |delims| + 1
    decreases |delims|
  {
    if delims == [] then pieces[0]
    else pieces[0] + delims[0] + Interleave(pieces[1..], delims[1..])
  }

  /** re.split loses nothing: there is one more piece than delimiters,
      and putting the delimiters back between the pieces rebuilds the text
      read so far. */
  lemma {:induction false} PiecesFromRoundTrip(s: string, cur: string)
    ensures |PiecesFrom(s, cur)| == |DelimsFrom(s)| + 1
    ensures Interleave(PiecesFrom(s, cur), DelimsFrom(s)) == cur + s
    decreases |s|
  {
    if s == [] {
      assert cur + s == cur;
    } else {
      var m := DelimMatch(s);
      if m > 0 {
        var rest := s[m..];
        PiecesFromRoundTrip(rest, []);
        RoundTripAtDelim(s, cur);
      } else {
        PiecesFromRoundTrip(s[1..], cur + [s[0]]);
        assert s[..1] == [s[0]];
        ConcatSplit(cur, s, 1);
      }
    }
  }

  /** The step of PiecesFromRoundTrip where a delimiter ends the piece. */
  lemma RoundTripAtDelim(s: string, cur: string)
    requires s != [] && DelimMatch(s) > 0
    requires |PiecesFrom(s[DelimMatch(s)..], [])| == |DelimsFrom(s[DelimMatch(s)..])| + 1
    requires Interleave(PiecesFrom(s[DelimMatch(s)..], []), DelimsFrom(s[DelimMatch(s)..])) == s[DelimMatch(s)..]
    ensures |PiecesFrom(s, cur)| == |DelimsFrom(s)| + 1
    ensures Interleave(PiecesFrom(s, cur), DelimsFrom(s)) == cur + s
  {
    var m := DelimMatch(s);
    var rest := s[m..];
    var pieces, delims := PiecesFrom(rest, []), DelimsFrom(rest);
    assert PiecesFrom(s, cur) == [cur] + pieces;
    assert DelimsFrom(s) == [s[..m]] + delims;
    InterleaveCons(cur, pieces, s[..m], delims);
    ConcatSplit(cur, s, m);
  }

  lemma ConcatSplit(a: string, s: string, m: nat)
    requires m <= |s|
    ensures a + s[..m] + s[m..] == a + s
  {
    assert s[..m] + s[m..] == s;
  }

  lemma InterleaveCons(p: string, pieces: seq<string>, d: string, delims: seq<string>)
    requires |pieces| == |delims| + 1
    ensures Interleave([p] + pieces, [d] + delims) == p + d + Interleave(pieces, delims)
  {
    assert ([p] + pieces)[1..] == pieces;
    assert ([d] + delims)[1..] == delims;
  }

  /** Every delimiter re.split consumes is a whole `[.!?]+\s+` run. */
  lemma {:induction false} DelimsFromAreDelims(s: string)
    ensures All(IsDelim, DelimsFrom(s))
    decreases |s|
  {
    if s != [] {
      var m := DelimMatch(s);
      if m > 0 {
        DelimsFromAreDelims(s[m..]);
        DelimMatchSpec(s);
        AllConcat(IsDelim, [s[..m]], DelimsFrom(s[m..]));
      } else {
        DelimsFromAreDelims(s[1..]);
      }
    }
  }

  /** The sentence split of `s`, as a round trip: the pieces hold no
      delimiter, every delimiter between them is a whole one, and putting
      them back rebuilds `s`. */
  lemma SplitSentencesRoundTrip(s: string)
    ensures |SplitSentences(s)| == |DelimsFrom(s)| + 1
    ensures Interleave(SplitSentences(s), DelimsFrom(s)) == s
    ensures All(IsDelim, DelimsFrom(s))
    ensures All(NoDelim, SplitSentences(s))
    ensures IsSplit(s, SplitSentences(s), DelimsFrom(s))
  {
    PiecesFromRoundTrip(s, []);
    assert [] + s == s;
    DelimsFromAreDelims(s);
    SplitSentencesNoDelim(s);
    SplitSentencesIsSplit(s);
  }

  /** What a piece contributes: the piece stripped, or nothing when that
      leaves it empty. */
  function Segment(piece: string): (r: seq<string>)
    ensures |r| <= 1 && (r != [] ==> r[0] == Strip(piece))
    ensures r == [] <==> AllSpace(piece)
    ensures r != [] ==> IsCleanText(r[0])
    ensures r != [] && NoNewline(piece) ==> NoNewline(r[0])
    ensures r != [] && NoDelim(piece) ==> NoDelim(r[0])
  {
    StripParts(piece);
    assert NoDelim(piece) ==> NoDelim(Strip(piece)) by {
      if NoDelim(piece) {
        StripNoDelim(piece);
      }
    }
    var sentence := Strip(piece);
    if sentence != [] then [sentence] else []
  }

  /** The stripped, non-empty pieces of pieces[i..], in order. */
  function SegmentsFrom(pieces: seq<string>, i: nat): seq<string>
    requires i <= |pieces|
  {
    FlatMapRange(Segment, pieces, i, |pieces|)
  }

  /** The pieces the unique lines, joined by spaces, split into. */
  function Pieces(content: string): seq<string> {
    SplitSentences(Join(" ", UniqueLines(Split(content, '\n'))))
  }

  /** The sentences of the document, each kept the first time it occurs. */
  function TxtSentences(content: string): seq<string> {
    KeepFirst([], SegmentsFrom(Pieces(content), 0), Id)
  }

  /** The result of converting WebVTT content to plain text. */
  function TxtOf(content: string): string {
    Join("\n", TxtSentences(content))
  }

  /** A greedy run that stops inside `w` is not changed by what follows `w`. */
  lemma {:induction false} RunPrefix(w: string, rest: string, cls: CharClass)
    requires Run(w, cls) < |w|
    ensures Run(w + rest, cls) == Run(w, cls)
    decreases |w|
  {
    if InClass(w[0], cls) {
      assert (w + rest)[1..] == w[1..] + rest;
      RunPrefix(w[1..], rest, cls);
    }
  }

  /** A delimiter found in `w` is still found when text follows `w`. */
  lemma DelimPrefix(w: string, rest: string)
    ensures DelimMatch(w) > 0 ==> DelimMatch(w + rest) > 0
  {
    if DelimMatch(w) > 0 {
      DelimPrefixFound(w, rest);
    }
  }

  lemma DelimPrefixFound(w: string, rest: string)
    requires DelimMatch(w) > 0
    ensures DelimMatch(w + rest) > 0
  {
    var p := Run(w, SentenceEnd);
    assert p < |w| by {
      assert Run(w[p..], Space) > 0;
    }
    RunPrefix(w, rest, SentenceEnd);
    assert (w + rest)[p..] == w[p..] + rest;
    assert (w + rest)[p..][0] == w[p..][0];
  }

  /** A piece in the making has no delimiter in it, whatever follows. */
  predicate NoDelimBefore(cur: string, s: string) {
    forall k :: 0 <= k < |cur| ==> DelimAt(cur + s, k) == 0
  }

  lemma NoDelimOfBefore(cur: string, s: string)
    requires NoDelimBefore(cur, s)
    ensures NoDelim(cur)
  {
    forall k | 0 <= k < |cur|
      ensures DelimAt(cur, k) == 0
    {
      assert DelimAt(cur + s, k) == 0;
      DelimPrefix(cur[k..], s);
      assert (cur + s)[k..] == cur[k..] + s;
    }
  }

  lemma {:induction false} PiecesFromNoDelim(s: string, cur: string)
    requires NoDelimBefore(cur, s)
    ensures All(NoDelim, PiecesFrom(s, cur))
    decreases |s|
  {
    if s == [] {
      NoDelimOfBefore(cur, s);
    } else if DelimMatch(s) > 0 {
      NoDelimOfBefore(cur, s);
      PiecesFromNoDelim(s[DelimMatch(s)..], []);
    } else {
      var cur' := cur + [s[0]];
      assert cur' + s[1..] == cur + s;
      assert (cur + s)[|cur|..] == s;
      PiecesFromNoDelim(s[1..], cur');
    }
  }

  /** No piece re.split returns contains a sentence delimiter. */
  lemma SplitSentencesNoDelim(s: string)
    ensures All(NoDelim, SplitSentences(s))
  {
    PiecesFromNoDelim(s, []);
  }

  /** `pieces` and `delims` are how re.split cuts `s`, read left to right:
      each piece is a prefix of what is left at none of whose positions a
      delimiter starts, and the delimiter that ends it is the longest one
      starting right after it. */
  predicate IsSplit(s: string, pieces: seq<string>, delims: seq<string>)
    decreases |delims|
  {
    |pieces| == |delims| + 1 &&
    var a := pieces[0];
    |a| <= |s| && s[..|a|] == a &&
    (forall k :: 0 <= k < |a| ==> DelimAt(s, k) == 0) &&
    if delims == [] then |a| == |s|
    else
      var b := s[|a|..];
      |delims[0]| > 0 && DelimMatch(b) == |delims[0]| && b[..|delims[0]|] == delims[0] &&
      IsSplit(b[|delims[0]|..], pieces[1..], delims[1..])
  }

  /** Text at none of whose positions a delimiter starts joins the piece
      being read, and no delimiter is consumed in it. */
  lemma {:induction false} PiecesFromSkip(cur: string, a: string, b: string)
    requires forall k :: 0 <= k < |a| ==> DelimAt(a + b, k) == 0
    ensures PiecesFrom(a + b, cur) == PiecesFrom(b, cur + a)
    ensures DelimsFrom(a + b) == DelimsFrom(b)
    decreases |a|
  {
    if a == [] {
      assert a + b == b && cur + a == cur;
    } else {
      var s := a + b;
      var t := s[1..];
      assert t == a[1..] + b;
      assert DelimMatch(s) == 0 by {
        assert DelimAt(s, 0) == 0 && s[0..] == s;
      }
      forall k | 0 <= k < |a| - 1
        ensures DelimAt(t, k) == 0
      {
        assert DelimAt(s, k + 1) == 0;
        assert t[k..] == s[k + 1..];
      }
      PiecesFromSkip(cur + [a[0]], a[1..], b);
      assert cur + [a[0]] + a[1..] == cur + a;
    }
  }

  /** At the first position where a delimiter starts, the piece ends and
      exactly the longest delimiter there is consumed. */
  lemma PiecesFromAt(cur: string, a: string, b: string)
    requires forall k :: 0 <= k < |a| ==> DelimAt(a + b, k) == 0
    requires DelimMatch(b) > 0
    ensures PiecesFrom(a + b, cur) == [cur + a] + PiecesFrom(b[DelimMatch(b)..], [])
    ensures DelimsFrom(a + b) == [b[..DelimMatch(b)]] + DelimsFrom(b[DelimMatch(b)..])
  {
    PiecesFromSkip(cur, a, b);
  }

  lemma {:induction false} PiecesFromIsSplit(s: string, cur: string)
    requires NoDelimBefore(cur, s)
    ensures IsSplit(cur + s, PiecesFrom(s, cur), DelimsFrom(s))
    decreases |s|
  {
    if s == [] {
      assert cur + s == cur;
    } else if DelimMatch(s) > 0 {
      var m := DelimMatch(s);
      var t := cur + s;
      assert t[..|cur|] == cur;
      assert t[|cur|..] == s;
      PiecesFromIsSplit(s[m..], []);
      assert [] + s[m..] == s[m..];
    } else {
      var cur' := cur + [s[0]];
      assert cur' + s[1..] == cur + s;
      assert (cur + s)[|cur|..] == s;
      PiecesFromIsSplit(s[1..], cur');
    }
  }

  /** re.split's result is a left-to-right split of the text. */
  lemma SplitSentencesIsSplit(s: string)
    ensures IsSplit(s, SplitSentences(s), DelimsFrom(s))
  {
    PiecesFromIsSplit(s, []);
    assert [] + s == s;
  }

  /** A left-to-right split of the text is re.split's result. */
  lemma {:induction false} IsSplitUnique(s: string, pieces: seq<string>, delims: seq<string>)
    requires IsSplit(s, pieces, delims)
    ensures pieces == SplitSentences(s) && delims == DelimsFrom(s)
    decreases |delims|
  {
    if delims == [] {
      IsSplitLast(s, pieces, delims);
    } else {
      var b := s[|pieces[0]|..];
      IsSplitUnique(b[|delims[0]|..], pieces[1..], delims[1..]);
      IsSplitStep(s, pieces, delims);
    }
  }

  lemma IsSplitLast(s: string, pieces: seq<string>, delims: seq<string>)
    requires IsSplit(s, pieces, delims) && delims == []
    ensures pieces == SplitSentences(s) && delims == DelimsFrom(s)
  {
    var a := pieces[0];
    assert a == s;
    assert s + [] == s;
    PiecesFromSkip([], s, []);
    assert [] + s == s;
  }

  lemma IsSplitStep(s: string, pieces: seq<string>, delims: seq<string>)
    requires IsSplit(s, pieces, delims) && delims != []
    requires var rest := s[|pieces[0]|..][|delims[0]|..];
      pieces[1..] == SplitSentences(rest) && delims[1..] == DelimsFrom(rest)
    ensures pieces == SplitSentences(s) && delims == DelimsFrom(s)
  {
    var a := pieces[0];
    var b := s[|a|..];
    assert a + b == s;
    SplitSentencesAt(a, b);
    assert pieces == [a] + pieces[1..];
    assert delims == [delims[0]] + delims[1..];
  }

  /** PiecesFromAt for the first piece of the text. */
  lemma SplitSentencesAt(a: string, b: string)
    requires forall k :: 0 <= k < |a| ==> DelimAt(a + b, k) == 0
    requires DelimMatch(b) > 0
    ensures SplitSentences(a + b) == [a] + SplitSentences(b[DelimMatch(b)..])
    ensures DelimsFrom(a + b) == [b[..DelimMatch(b)]] + DelimsFrom(b[DelimMatch(b)..])
  {
    PiecesFromAt([], a, b);
    assert [] + a == a;
  }

  /** A split grows at the front by a piece and the delimiter after it. */
  lemma IsSplitCons(a: string, d: string, rest: string, pieces: seq<string>, delims: seq<string>)
    requires forall k :: 0 <= k < |a| ==> DelimAt(a + d + rest, k) == 0
    requires |d| > 0 && DelimMatch(d + rest) == |d|
    requires IsSplit(rest, pieces, delims)
    ensures IsSplit(a + d + rest, [a] + pieces, [d] + delims)
  {
    var b := d + rest;
    var s := a + d + rest;
    assert s == a + b;
    assert s[..|a|] == a && s[|a|..] == b;
    assert (d + rest)[..|d|] == d && (d + rest)[|d|..] == rest;
    assert ([a] + pieces)[1..] == pieces && ([d] + delims)[1..] == delims;
  }

  /** "a.. b" splits at the whole run ".. ": the punctuation run is one
      delimiter, and no piece ends inside it. */
  lemma SplitSentencesExample()
    ensures SplitSentences("a.. b") == ["a", "b"]
    ensures DelimsFrom("a.. b") == [".. "]
  {
    ExampleDelims();
    assert IsSplit("b", ["b"], []);
    IsSplitCons("a", ".. ", "b", ["b"], []);
    SplitSentencesSpec("a.. b", ["a", "b"], [".. "]);
  }

  lemma ExampleDelims()
    ensures "a" + ".. " + "b" == "a.. b" && ".. " + "b" == ".. b"
    ensures DelimAt("a.. b", 0) == 0 && DelimAt("b", 0) == 0
    ensures DelimMatch(".. b") == 3
  {
    var b := ".. b";
    assert "a.. b"[0..] == "a.. b" && "b"[0..] == "b";
    RunExact(b, SentenceEnd, 2);
    assert b[2..] == " b";
    RunExact(" b", Space, 1);
  }

  /** Cutting "a.. b" after the first '.' is not a split of it: a delimiter
      starts inside the piece "a.". */
  lemma SplitSentencesNotInside()
    ensures !IsSplit("a.. b", ["a.", "b"], [". "])
  {
    SplitSentencesExample();
    SplitSentencesSpec("a.. b", ["a.", "b"], [". "]);
    assert "a." != "a";
  }

  /** The sentence split is exactly the left-to-right split: re.split's
      pieces and delimiters are one, and the only one. */
  lemma SplitSentencesSpec(s: string, pieces: seq<string>, delims: seq<string>)
    ensures IsSplit(s, pieces, delims) <==> pieces == SplitSentences(s) && delims == DelimsFrom(s)
  {
    SplitSentencesIsSplit(s);
    if IsSplit(s, pieces, delims) {
      IsSplitUnique(s, pieces, delims);
    }
  }

  lemma {:induction false} PiecesFromWhole(s: string, cur: string)
    requires NoDelim(s)
    ensures PiecesFrom(s, cur) == [cur + s]
    decreases |s|
  {
    if s != [] {
      assert DelimAt(s, 0) == 0;
      assert s[0..] == s;
      assert NoDelim(s[1..]) by {
        forall k | 0 <= k < |s[1..]|
          ensures DelimAt(s[1..], k) == 0
        {
          assert DelimAt(s, k + 1) == 0;
          assert s[1..][k..] == s[k + 1..];
        }
      }
      PiecesFromWhole(s[1..], cur + [s[0]]);
      assert cur + [s[0]] + s[1..] == cur + s;
    } else {
      assert cur + s == cur;
    }
  }

  /** Text without a delimiter is one sentence: re.split returns it whole. */
  lemma SplitSentencesWhole(s: string)
    requires NoDelim(s)
    ensures SplitSentences(s) == [s]
  {
    PiecesFromWhole(s, []);
    assert [] + s == s;
  }

  /** Text without line breaks splits into pieces without line breaks. */
  lemma {:induction false} PiecesFromNoNewline(s: string, cur: string)
    requires NoNewline(s) && NoNewline(cur)
    ensures All(NoNewline, PiecesFrom(s, cur))
    decreases |s|
  {
    if s != [] {
      if DelimMatch(s) > 0 {
        PiecesFromNoNewline(s[DelimMatch(s)..], []);
        AllConcat(NoNewline, [cur], PiecesFrom(s[DelimMatch(s)..], []));
      } else {
        PiecesFromNoNewline(s[1..], cur + [s[0]]);
      }
    }
  }

  /** Any slice of a delimiter-free string is delimiter-free. */
  lemma NoDelimSlice(s: string, a: nat, b: nat)
    requires a <= b <= |s|
    requires NoDelim(s)
    ensures NoDelim(s[a..b])
  {
    forall k | 0 <= k < b - a
      ensures DelimAt(s[a..b], k) == 0
    {
      assert DelimAt(s, a + k) == 0;
      DelimPrefix(s[a..b][k..], s[b..]);
      assert s[a..b][k..] + s[b..] == s[a + k..];
    }
  }

  /** Stripping keeps a string free of delimiters. */
  lemma StripNoDelim(p: string)
    requires NoDelim(p)
    ensures NoDelim(Strip(p))
  {
    NoDelimSlice(p, StripStart(p), StripEnd(p));
  }

  /** The segments of pieces[i..] are clean text, without line breaks or
      delimiters when the pieces have none. */
  lemma SegmentsFromProperties(pieces: seq<string>, i: nat)
    requires i <= |pieces|
    ensures All(IsCleanText, SegmentsFrom(pieces, i))
    ensures All(NoNewline, pieces) ==> All(NoNewline, SegmentsFrom(pieces, i))
    ensures All(NoDelim, pieces) ==> All(NoDelim, SegmentsFrom(pieces, i))
  {
    forall p: string
      ensures All(IsCleanText, Segment(p)) && (NoNewline(p) ==> All(NoNewline, Segment(p)))
      ensures NoDelim(p) ==> All(NoDelim, Segment(p))
    {
    }
    FlatMapAll(Segment, (p: string) => true, IsCleanText, pieces, i, |pieces|);
    if All(NoNewline, pieces) {
      FlatMapAll(Segment, NoNewline, NoNewline, pieces, i, |pieces|);
    }
    if All(NoDelim, pieces) {
      FlatMapAll(Segment, NoDelim, NoDelim, pieces, i, |pieces|);
    }
  }

  /** The segments from piece `i` on: those of piece `i`, then the rest. */
  lemma SegmentsFromStep(pieces: seq<string>, i: nat)
    requires i < |pieces|
    ensures SegmentsFrom(pieces, i) == Segment(pieces[i]) + SegmentsFrom(pieces, i + 1)
  {
  }

  /** The candidates of lines[i..] are clean text, without line breaks when
      the lines have none. */
  lemma CandidatesFromProperties(lines: seq<string>, i: nat)
    requires i <= |lines|
    ensures All(IsCleanText, CandidatesFrom(lines, i))
    ensures All(NoNewline, lines) ==> All(NoNewline, CandidatesFrom(lines, i))
  {
    forall x: string
      ensures All(IsCleanText, Candidate(x)) && (NoNewline(x) ==> All(NoNewline, Candidate(x)))
    {
    }
    FlatMapAll(Candidate, (x: string) => true, IsCleanText, lines, i, |lines|);
    if All(NoNewline, lines) {
      FlatMapAll(Candidate, NoNewline, NoNewline, lines, i, |lines|);
    }
  }

  /** The candidates from line `i` on: those of line `i`, then the rest. */
  lemma CandidatesFromStep(lines: seq<string>, i: nat)
    requires i < |lines|
    ensures CandidatesFrom(lines, i) == Candidate(lines[i]) + CandidatesFrom(lines, i + 1)
  {
  }

  /** The first pass keeps each candidate line once, in order, and loses
      none. */
  lemma UniqueLinesProperties(lines: seq<string>)
    ensures UniqueLines(lines) == FirstsFrom(CandidatesFrom(lines, 0), Id, 0)
    ensures DistinctKeys(UniqueLines(lines), Id)
    ensures IsSubsequence(UniqueLines(lines), CandidatesFrom(lines, 0))
    ensures forall s :: s in UniqueLines(lines) <==> s in CandidatesFrom(lines, 0)
  {
    var cands := CandidatesFrom(lines, 0);
    KeepFirstIsFirsts(cands, Id);
    KeepFirstDistinct([], cands, Id);
    KeepFirstOrder([], cands, Id);
    assert UniqueLines(lines)[0..] == UniqueLines(lines);
    forall s
      ensures s in UniqueLines(lines) <==> s in cands
    {
      KeepFirstKeys([], cands, Id, s);
      HasKeyId(UniqueLines(lines), s);
      HasKeyId(cands, s);
      HasKeyId([], s);
    }
  }

  /** The lines kept by the first pass have no line breaks. */
  lemma UniqueLinesNoNewline(content: string)
    ensures All(NoNewline, UniqueLines(Split(content, '\n')))
  {
    var lines := Split(content, '\n');
    JoinSplit(content, '\n');
    CandidatesFromProperties(lines, 0);
    KeepFirstFrom([], CandidatesFrom(lines, 0), Id);
    AllOfMembers(NoNewline, UniqueLines(lines), CandidatesFrom(lines, 0));
  }

  /** The output sentences: pairwise distinct, each non-empty, stripped,
      free of line breaks and of any `[.!?]+\s+` delimiter. */
  lemma TxtSentencesProperties(content: string)
    ensures TxtSentences(content) == FirstsFrom(SegmentsFrom(Pieces(content), 0), Id, 0)
    ensures DistinctKeys(TxtSentences(content), Id)
    ensures All(IsCleanText, TxtSentences(content))
    ensures All(NoNewline, TxtSentences(content))
    ensures All(NoDelim, TxtSentences(content))
  {
    var unique := UniqueLines(Split(content, '\n'));
    UniqueLinesNoNewline(content);
    var full := Join(" ", unique);
    JoinChars(" ", unique, '\n');
    var pieces := SplitSentences(full);
    PiecesFromNoNewline(full, []);
    SplitSentencesNoDelim(full);
    var segments := SegmentsFrom(pieces, 0);
    KeepFirstIsFirsts(segments, Id);
    SegmentsFromProperties(pieces, 0);
    KeepFirstDistinct([], segments, Id);
    KeepFirstFrom([], segments, Id);
    AllOfMembers(IsCleanText, TxtSentences(content), segments);
    AllOfMembers(NoNewline, TxtSentences(content), segments);
    AllOfMembers(NoDelim, TxtSentences(content), segments);
  }

  /** The output sentences are exactly the pieces that are not blank, each
      stripped: nothing else appears, and none of them is lost. */
  lemma TxtSentencesContents(content: string)
    ensures forall s :: s in TxtSentences(content) <==>
      s != [] && exists j :: 0 <= j < |Pieces(content)| && Strip(Pieces(content)[j]) == s
  {
    var pieces := Pieces(content);
    var segments := SegmentsFrom(pieces, 0);
    forall s
      ensures s in TxtSentences(content) <==>
        s != [] && exists j :: 0 <= j < |pieces| && Strip(pieces[j]) == s
    {
      KeepFirstKeys([], segments, Id, s);
      HasKeyId(TxtSentences(content), s);
      HasKeyId(segments, s);
      HasKeyId([], s);
      FlatMapRangeMembers(Segment, pieces, 0, |pieces|, s);
      if j :| 0 <= j < |pieces| && s in Segment(pieces[j]) {
        assert Strip(pieces[j]) == s;
      }
      if s != [] && exists j :: 0 <= j < |pieces| && Strip(pieces[j]) == s {
        var j :| 0 <= j < |pieces| && Strip(pieces[j]) == s;
        StripParts(pieces[j]);
        assert s in Segment(pieces[j]);
      }
    }
  }

  /** The text output read back line by line gives the sentences; it is
      empty exactly when there is no sentence. */
  lemma TxtOfLines(content: string)
    ensures TxtOf(content) == "" <==> TxtSentences(content) == []
    ensures TxtSentences(content) != [] ==> Split(TxtOf(content), '\n') == TxtSentences(content)
  {
    var out := TxtSentences(content);
    TxtSentencesProperties(content);
    JoinEmpty("\n", out);
    if out != [] {
      SplitJoin(out, '\n');
    }
  }

  /** The first pass (server.py:437-455): skip, clean, and keep each line
      not seen before. */
  method UniqueTextLines(lines: seq<string>) returns (sentences: seq<string>)
    ensures sentences == UniqueLines(lines)
  {
    sentences := [];
    var seenSentences: set<string> := {};
    for i := 0 to |lines|
      invariant KeepFirst(sentences, CandidatesFrom(lines, i), Id) == UniqueLines(lines)
      invariant forall s :: s in seenSentences <==> s in sentences
    {
      ghost var candidate := Candidate(lines[i]);
      CandidatesFromStep(lines, i);
      KeepFirstStep(sentences, candidate, CandidatesFrom(lines, i + 1), Id);
      var line := Strip(lines[i]);
      if TxtSkipped(line) {
        continue;
      }
      var cleanLine := Strip(StripTags(line));
      HasKeyId(sentences, cleanLine);
      if cleanLine != [] && cleanLine !in seenSentences {
        seenSentences := seenSentences + {cleanLine};
        sentences := sentences + [cleanLine];
      }
    }
  }

  /** The final pass (server.py:463-469): strip each piece and keep it when
      non-empty and not already kept. */
  method UniqueSentences(pieces: seq<string>) returns (finalSentences: seq<string>)
    ensures finalSentences == KeepFirst([], SegmentsFrom(pieces, 0), Id)
  {
    finalSentences := [];
    for i := 0 to |pieces|
      invariant KeepFirst(finalSentences, SegmentsFrom(pieces, i), Id) == KeepFirst([], SegmentsFrom(pieces, 0), Id)
    {
      var sentence := Strip(pieces[i]);
      SegmentsFromStep(pieces, i);
      KeepFirstStep(finalSentences, Segment(pieces[i]), SegmentsFrom(pieces, i + 1), Id);
      HasKeyId(finalSentences, sentence);
      if sentence != [] && sentence !in finalSentences {
        finalSentences := finalSentences + [sentence];
      }
    }
  }

  /** convert_vtt_to_txt on the file's content. */
  method ConvertVttToTxt(content: string) returns (txt: string)
    ensures txt == TxtOf(content)
  {
    var lines := Split(content, '\n');
    var sentences := UniqueTextLines(lines);
    var fullText := Join(" ", sentences);
    var sentenceEndings := SplitSentences(fullText);
    var finalSentences := UniqueSentences(sentenceEndings);
    txt := Join("\n", finalSentences);
  }
}
