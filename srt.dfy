/** YouTubeSubtitleExtractor.convert_vtt_to_srt (server.py:339-424): a
    cursor walks the WebVTT lines, turns each timing line and the text
    lines under it into a cue, drops a cue whose text equals that of any
    cue already kept, and renders the kept cues as numbered SRT blocks.
    The file read at server.py:342-343 is replaced by the content string. */
module Srt {
  import opened Text
  import opened Vtt
  import opened Dedup

  /** One SRT entry: the normalised timing line and the cue's joined text. */
  datatype Cue = Cue(timestamp: string, text: string)

  /** The key duplicates are detected by. */
  function TextOf(c: Cue): string {
    c.text
  }

  /** Text collection stops before a blank line or another timing line. */
  predicate EndsCueText(line: string) {
    line == [] || IsTimingLine(line)
  }

  /** Index of the first line at or after `k` that ends a cue's text, or
      the number of lines. */
  function CollectEnd(lines: seq<string>, k: nat): (e: nat)
    requires k <= |lines|
    decreases |lines| - k
    ensures k <= e <= |lines|
    ensures e == |lines| || EndsCueText(Strip(lines[e]))
  {
    if k == |lines| || EndsCueText(Strip(lines[k])) then k else CollectEnd(lines, k + 1)
  }

  /** No line before the end ends the text: the end is the first such line. */
  lemma {:induction false} CollectEndFirst(lines: seq<string>, k: nat)
    requires k <= |lines|
    ensures forall j :: k <= j < CollectEnd(lines, k) ==> !EndsCueText(Strip(lines[j]))
    decreases |lines| - k
  {
    if k < |lines| && !EndsCueText(Strip(lines[k])) {
      CollectEndFirst(lines, k + 1);
      var e := CollectEnd(lines, k + 1);
      assert CollectEnd(lines, k) == e;
      forall j | k <= j < e
        ensures !EndsCueText(Strip(lines[j]))
      {
        if j == k {
          assert !EndsCueText(Strip(lines[k]));
        }
      }
    }
  }

  /** A line's contribution to its cue's text: the cleaned line, or
      nothing when it cleans to the empty string. */
  function Cleaned(line: string): (r: seq<string>)
    ensures |r| <= 1 && (r != [] ==> r[0] == CleanLine(line))
    ensures r == [] <==> AllSpace(StripTags(Strip(line)))
    ensures r != [] ==> IsCleanText(r[0])
    ensures r != [] && NoNewline(line) ==> NoNewline(r[0])
  {
    var c := CleanLine(line);
    if c != [] then [c] else []
  }

  /** The cleaned text lines of lines[lo..hi], in order; lines that clean
      to nothing are dropped. */
  function TextLinesBetween(lines: seq<string>, lo: nat, hi: nat): seq<string>
    requires lo <= hi <= |lines|
  {
    FlatMapRange(Cleaned, lines, lo, hi)
  }

  /** The cues found from line `i` on, before duplicate removal. A cue is
      produced only when its body has some text left after cleaning and its
      normalised timing line still contains `-->`. After a timing line the
      scan resumes at the line that ended the text, unconsumed. */
  function CuesFrom(lines: seq<string>, i: nat): (r: seq<Cue>)
    requires i <= |lines|
    decreases |lines| - i
    ensures |r| <= |lines| - i
  {
    if i == |lines| then []
    else
      var line := Strip(lines[i]);
      if IsHeaderOrBlank(line) then CuesFrom(lines, i + 1)
      else if IsTimingLine(line) then
        var end := CollectEnd(lines, i + 1);
        CueAt(line, TextLinesBetween(lines, i + 1, end)) + CuesFrom(lines, end)
      else CuesFrom(lines, i + 1)
  }

  /** The cue made of a timing line and its body's cleaned lines: none when the body has no
      text left after cleaning or the normalised timing lost its `-->`,
      otherwise the normalised timing with the cleaned lines joined by
      single spaces. */
  function CueAt(line: string, texts: seq<string>): (r: seq<Cue>)
    ensures |r| <= 1
  {
    var timestamp := NormalizeTiming(line);
    if texts != [] && Contains(timestamp, "-->") then [Cue(timestamp, Join(" ", texts))] else []
  }

  /** The entries the converter keeps: the cues in source order, each
      dropped when an earlier kept entry has the same text. */
  function KeptCues(lines: seq<string>): seq<Cue> {
    KeepFirst([], CuesFrom(lines, 0), TextOf)
  }

  /** What every emitted entry satisfies. */
  predicate WellFormedCue(c: Cue) {
    && c.text != []
    && IsStripped(c.text)
    && Contains(c.timestamp, "-->")
    && '.' !in c.timestamp
    && '\n' !in c.timestamp
    && '\n' !in c.text
  }

  /** The collected text lines are clean text, at most one per source
      line, and have no line breaks when the source lines have none. */
  lemma TextLinesBetweenProperties(lines: seq<string>, lo: nat, hi: nat)
    requires lo <= hi <= |lines|
    ensures All(IsCleanText, TextLinesBetween(lines, lo, hi))
    ensures |TextLinesBetween(lines, lo, hi)| <= hi - lo
    ensures All(NoNewline, lines) ==> All(NoNewline, TextLinesBetween(lines, lo, hi))
  {
    FlatMapRangeLength(Cleaned, lines, lo, hi);
    forall x: string
      ensures All(IsCleanText, Cleaned(x)) && (NoNewline(x) ==> All(NoNewline, Cleaned(x)))
    {
    }
    FlatMapAll(Cleaned, (x: string) => true, IsCleanText, lines, lo, hi);
    if All(NoNewline, lines) {
      FlatMapAll(Cleaned, NoNewline, NoNewline, lines, lo, hi);
    }
  }

  /** Joining stripped, non-empty lines with single spaces gives a
      stripped, non-empty text. */
  lemma {:induction false} JoinStripped(xs: seq<string>)
    requires xs != []
    requires forall k :: 0 <= k < |xs| ==> xs[k] != [] && IsStripped(xs[k])
    ensures Join(" ", xs) != [] && IsStripped(Join(" ", xs))
  {
    if |xs| > 1 {
      JoinStripped(xs[1..]);
      var rest := Join(" ", xs[1..]);
      assert Join(" ", xs) == xs[0] + " " + rest;
    }
  }

  lemma CueAtWellFormed(line: string, texts: seq<string>)
    requires NoNewline(line)
    requires All(IsCleanText, texts) && All(NoNewline, texts)
    ensures All(WellFormedCue, CueAt(line, texts))
  {
    if texts != [] {
      JoinStripped(texts);
      JoinChars(" ", texts, '\n');
    }
  }

  /** Every cue the scan produces is well formed: non-empty stripped text,
      a timing string with `-->`, no `.` and no line break. */
  lemma {:induction false} CuesWellFormed(lines: seq<string>, i: nat)
    requires i <= |lines|
    requires All(NoNewline, lines)
    ensures All(WellFormedCue, CuesFrom(lines, i))
    decreases |lines| - i
  {
    if i < |lines| {
      var line := Strip(lines[i]);
      if !IsHeaderOrBlank(line) && IsTimingLine(line) {
        var end := CollectEnd(lines, i + 1);
        CuesWellFormed(lines, end);
        CuesFromTiming(lines, i);
        CueOfLineWellFormed(lines, i);
        AllConcat(WellFormedCue, CueAt(line, TextLinesBetween(lines, i + 1, end)), CuesFrom(lines, end));
      } else {
        CuesFromSkip(lines, i);
        CuesWellFormed(lines, i + 1);
      }
    }
  }

  /** The cue a timing line makes from the lines below it is well formed. */
  lemma CueOfLineWellFormed(lines: seq<string>, i: nat)
    requires i < |lines|
    requires All(NoNewline, lines)
    ensures var end := CollectEnd(lines, i + 1);
      All(WellFormedCue, CueAt(Strip(lines[i]), TextLinesBetween(lines, i + 1, end)))
  {
    var end := CollectEnd(lines, i + 1);
    assert NoNewline(lines[i]);
    StripParts(lines[i]);
    TextLinesBetweenProperties(lines, i + 1, end);
    CueAtWellFormed(Strip(lines[i]), TextLinesBetween(lines, i + 1, end));
  }

  /** A timing line contributes its cue, and the scan resumes where the
      cue's text ended. */
  lemma CuesFromTiming(lines: seq<string>, i: nat)
    requires i < |lines|
    requires !IsHeaderOrBlank(Strip(lines[i])) && IsTimingLine(Strip(lines[i]))
    ensures var end := CollectEnd(lines, i + 1);
      CuesFrom(lines, i) == CueAt(Strip(lines[i]), TextLinesBetween(lines, i + 1, end)) + CuesFrom(lines, end)
  {
  }

  /** The kept entries: texts pairwise distinct, every entry well formed,
      kept in source order, the first cue of each text kept with its own
      timing, and every text the scan found still present. */
  lemma KeptCuesProperties(lines: seq<string>)
    requires All(NoNewline, lines)
    ensures KeptCues(lines) == FirstsFrom(CuesFrom(lines, 0), TextOf, 0)
    ensures DistinctKeys(KeptCues(lines), TextOf)
    ensures All(WellFormedCue, KeptCues(lines))
    ensures IsSubsequence(KeptCues(lines), CuesFrom(lines, 0))
    ensures forall i :: 0 <= i < |CuesFrom(lines, 0)| && !HasKey(CuesFrom(lines, 0)[..i], CuesFrom(lines, 0)[i].text, TextOf)
              ==> CuesFrom(lines, 0)[i] in KeptCues(lines)
    ensures forall t :: HasKey(KeptCues(lines), t, TextOf) <==> HasKey(CuesFrom(lines, 0), t, TextOf)
  {
    var cues := CuesFrom(lines, 0);
    KeepFirstIsFirsts(cues, TextOf);
    KeepFirstSummary(cues, TextOf);
    CuesWellFormed(lines, 0);
    AllOfMembers(WellFormedCue, KeptCues(lines), cues);
  }

  /** The four SRT lines of the entry numbered `index`. */
  function SrtBlock(index: nat, c: Cue): seq<string> {
    [NatToString(index), c.timestamp, c.text, ""]
  }

  /** The SRT lines of `entries`, numbered from 1. */
  function SrtLines(entries: seq<Cue>): seq<string>
    decreases |entries|
  {
    if entries == [] then []
    else SrtLines(entries[..|entries| - 1]) + SrtBlock(|entries|, entries[|entries| - 1])
  }

  /** '\n'.join of the SRT lines. */
  function SrtDocument(entries: seq<Cue>): string {
    Join("\n", SrtLines(entries))
  }

  /** The result of converting WebVTT content to SRT. */
  function SrtOf(content: string): string {
    SrtDocument(KeptCues(Split(content, '\n')))
  }

  /** Entry k (from 0) occupies lines 4k..4k+3: its number k + 1, its
      timing, its text and a blank line; nothing else is emitted. */
  lemma {:induction false} SrtLinesLayout(entries: seq<Cue>)
    ensures |SrtLines(entries)| == 4 * |entries|
    ensures forall k :: 0 <= k < |entries| ==>
      SrtLines(entries)[4 * k..4 * k + 4] == SrtBlock(k + 1, entries[k])
    decreases |entries|
  {
    if entries != [] {
      var n := |entries|;
      var init := entries[..n - 1];
      SrtLinesLayout(init);
      var ls := SrtLines(entries);
      assert ls == SrtLines(init) + SrtBlock(n, entries[n - 1]);
      forall k | 0 <= k < n
        ensures ls[4 * k..4 * k + 4] == SrtBlock(k + 1, entries[k])
      {
        if k < n - 1 {
          assert ls[4 * k..4 * k + 4] == SrtLines(init)[4 * k..4 * k + 4];
          assert init[k] == entries[k];
        } else {
          assert ls[4 * k..4 * k + 4] == SrtBlock(n, entries[n - 1]);
        }
      }
    }
  }

  lemma {:induction false} SrtLinesNoNewline(entries: seq<Cue>)
    requires forall k :: 0 <= k < |entries| ==> '\n' !in entries[k].timestamp && '\n' !in entries[k].text
    ensures forall i :: 0 <= i < |SrtLines(entries)| ==> '\n' !in SrtLines(entries)[i]
    decreases |entries|
  {
    if entries != [] {
      var n := |entries|;
      SrtLinesNoNewline(entries[..n - 1]);
      var d := NatToString(n);
      assert forall j :: 0 <= j < |d| ==> IsDigit(d[j]);
    }
  }

  /** Splitting a rendered document at line breaks gives back its lines;
      no entries give the empty string. */
  lemma SrtDocumentLines(entries: seq<Cue>)
    requires forall k :: 0 <= k < |entries| ==> '\n' !in entries[k].timestamp && '\n' !in entries[k].text
    ensures entries == [] <==> SrtDocument(entries) == ""
    ensures entries != [] ==> Split(SrtDocument(entries), '\n') == SrtLines(entries)
  {
    if entries != [] {
      SrtLinesLayout(entries);
      var ls := SrtLines(entries);
      var block := ls[0..4];
      assert block == SrtBlock(1, entries[0]);
      assert ls[0] == block[0] != [];
      JoinLength("\n", ls);
      SrtLinesNoNewline(entries);
      SplitJoin(ls, '\n');
    }
  }

  /** For entries free of line breaks, the document's lines are, entry by
      entry, a number that reads back as the entry's position (1, 2, ...),
      its timing, its text and a blank line. */
  lemma SrtOutputLines(entries: seq<Cue>)
    requires entries != []
    requires forall k :: 0 <= k < |entries| ==> '\n' !in entries[k].timestamp && '\n' !in entries[k].text
    ensures var out := Split(SrtDocument(entries), '\n');
      && |out| == 4 * |entries|
      && (forall k :: 0 <= k < |entries| ==>
            && (forall j :: 0 <= j < |out[4 * k]| ==> IsDigit(out[4 * k][j]))
            && DecimalValue(out[4 * k]) == k + 1
            && out[4 * k + 1] == entries[k].timestamp
            && out[4 * k + 2] == entries[k].text
            && out[4 * k + 3] == "")
  {
    SrtDocumentLines(entries);
    forall k | 0 <= k < |entries|
      ensures var ls := SrtLines(entries);
        && |ls| == 4 * |entries|
        && ls[4 * k] == NatToString(k + 1)
        && ls[4 * k + 1] == entries[k].timestamp
        && ls[4 * k + 2] == entries[k].text
        && ls[4 * k + 3] == ""
      ensures DecimalValue(NatToString(k + 1)) == k + 1
    {
      SrtBlockAt(entries, k);
      DecimalRoundTrip(k + 1);
    }
  }

  /** The four lines entry k occupies. */
  lemma SrtBlockAt(entries: seq<Cue>, k: nat)
    requires k < |entries|
    ensures |SrtLines(entries)| == 4 * |entries|
    ensures var ls := SrtLines(entries);
      && ls[4 * k] == NatToString(k + 1)
      && ls[4 * k + 1] == entries[k].timestamp
      && ls[4 * k + 2] == entries[k].text
      && ls[4 * k + 3] == ""
  {
    SrtLinesLayout(entries);
    var ls := SrtLines(entries);
    var block := ls[4 * k..4 * k + 4];
    assert block == SrtBlock(k + 1, entries[k]);
    assert ls[4 * k] == block[0];
    assert ls[4 * k + 1] == block[1];
    assert ls[4 * k + 2] == block[2];
    assert ls[4 * k + 3] == block[3];
  }

  /** The SRT output of any content: the kept entries have distinct texts,
      the output is empty exactly when none is kept, and otherwise it is
      laid out as SrtOutputLines states. */
  lemma SrtOfProperties(content: string)
    ensures DistinctKeys(KeptCues(Split(content, '\n')), TextOf)
    ensures SrtOf(content) == "" <==> KeptCues(Split(content, '\n')) == []
    ensures forall k :: 0 <= k < |KeptCues(Split(content, '\n'))| ==>
      '\n' !in KeptCues(Split(content, '\n'))[k].timestamp && '\n' !in KeptCues(Split(content, '\n'))[k].text
  {
    var lines := Split(content, '\n');
    JoinSplit(content, '\n');
    KeptCuesProperties(lines);
    SrtDocumentLines(KeptCues(lines));
  }

  /** The inner collection loop (server.py:375-388): from `start`, clean
      and keep the text lines up to the first blank or timing line, which is
      left unconsumed. */
  method CollectCueText(lines: seq<string>, start: nat) returns (textLines: seq<string>, next: nat)
    requires start <= |lines|
    ensures next == CollectEnd(lines, start)
    ensures textLines == TextLinesBetween(lines, start, next)
  {
    textLines := [];
    next := start;
    while next < |lines|
      invariant start <= next <= |lines|
      invariant CollectEnd(lines, start) == CollectEnd(lines, next)
      invariant textLines == TextLinesBetween(lines, start, next)
      decreases |lines| - next
    {
      var textLine := Strip(lines[next]);
      if EndsCueText(textLine) {
        assert CollectEnd(lines, next) == next;
        break;
      }
      var cleanText := CleanLine(lines[next]);
      CollectStep(lines, start, next, textLines, cleanText);
      if cleanText != [] {
        textLines := textLines + [cleanText];
      }
      next := next + 1;
    }
  }

  /** A line that does not end the text moves the end past it. */
  lemma CollectEndStep(lines: seq<string>, k: nat)
    requires k < |lines| && !EndsCueText(Strip(lines[k]))
    ensures CollectEnd(lines, k) == CollectEnd(lines, k + 1)
  {
  }

  /** One iteration of the collection loop: a line that does not end the
      text adds its cleaned text, if any, and leaves the end where it is. */
  lemma CollectStep(lines: seq<string>, start: nat, next: nat, acc: seq<string>, c: string)
    requires start <= next < |lines| && !EndsCueText(Strip(lines[next]))
    requires acc == TextLinesBetween(lines, start, next) && c == CleanLine(lines[next])
    ensures CollectEnd(lines, next) == CollectEnd(lines, next + 1)
    ensures TextLinesBetween(lines, start, next + 1) == if c != [] then acc + [c] else acc
  {
    CollectEndStep(lines, next);
    TextLinesBetweenStep(lines, start, next);
    assert acc + [] == acc;
  }

  /** One more line adds its cleaned text, if any, at the end. */
  lemma TextLinesBetweenStep(lines: seq<string>, lo: nat, hi: nat)
    requires lo <= hi < |lines|
    ensures TextLinesBetween(lines, lo, hi + 1) == TextLinesBetween(lines, lo, hi) + Cleaned(lines[hi])
  {
    FlatMapRangeAppend(Cleaned, lines, lo, hi);
  }

  /** A line that is neither header, blank nor timing adds no cue. */
  lemma CuesFromSkip(lines: seq<string>, i: nat)
    requires i < |lines|
    requires IsHeaderOrBlank(Strip(lines[i])) || !IsTimingLine(Strip(lines[i]))
    ensures CuesFrom(lines, i) == CuesFrom(lines, i + 1)
  {
  }

  /** A timing line adds its cue, unless an earlier kept entry has its
      text, and the scan resumes where its text ended. */
  lemma CuesFromCue(lines: seq<string>, i: nat, entries: seq<Cue>)
    requires i < |lines|
    requires !IsHeaderOrBlank(Strip(lines[i])) && IsTimingLine(Strip(lines[i]))
    ensures var end := CollectEnd(lines, i + 1);
      var texts := TextLinesBetween(lines, i + 1, end);
      var timestamp := NormalizeTiming(Strip(lines[i]));
      KeepFirst(entries, CuesFrom(lines, i), TextOf) ==
      KeepFirst(if texts != [] && Contains(timestamp, "-->") && !HasKey(entries, Join(" ", texts), TextOf)
                then entries + [Cue(timestamp, Join(" ", texts))] else entries,
                CuesFrom(lines, end), TextOf)
  {
    var end := CollectEnd(lines, i + 1);
    var cue := CueAt(Strip(lines[i]), TextLinesBetween(lines, i + 1, end));
    CuesFromTiming(lines, i);
    KeepFirstStep(entries, cue, CuesFrom(lines, end), TextOf);
  }

  /** The duplicate scan (server.py:398-402): does any kept entry already
      carry this text? */
  method IsDuplicate(entries: seq<Cue>, fullText: string) returns (duplicate: bool)
    ensures duplicate <==> HasKey(entries, fullText, TextOf)
  {
    duplicate := false;
    for j := 0 to |entries|
      invariant !duplicate ==> forall k :: 0 <= k < j ==> entries[k].text != fullText
      invariant duplicate ==> HasKey(entries, fullText, TextOf)
    {
      if entries[j].text == fullText {
        duplicate := true;
        break;
      }
    }
  }

  /** The scan over the lines (server.py:350-411), driven by cursor `i`. */
  method ParseSrtEntries(lines: seq<string>) returns (entries: seq<Cue>)
    ensures entries == KeptCues(lines)
    ensures DistinctKeys(entries, TextOf)
  {
    entries := [];
    var i := 0;
    while i < |lines|
      invariant 0 <= i <= |lines|
      invariant KeepFirst(entries, CuesFrom(lines, i), TextOf) == KeptCues(lines)
      decreases |lines| - i
    {
      var line := Strip(lines[i]);
      if IsHeaderOrBlank(line) {
        CuesFromSkip(lines, i);
        i := i + 1;
        continue;
      }
      if IsTimingLine(line) {
        var timestamp := NormalizeTiming(line);
        var textLines, next := CollectCueText(lines, i + 1);
        CuesFromCue(lines, i, entries);
        ghost var kept := if textLines != [] && Contains(timestamp, "-->") && !HasKey(entries, Join(" ", textLines), TextOf)
          then entries + [Cue(timestamp, Join(" ", textLines))] else entries;
        assert KeepFirst(kept, CuesFrom(lines, next), TextOf) == KeptCues(lines);
        i := next;
        if textLines != [] && Contains(timestamp, "-->") {
          var fullText := Join(" ", textLines);
          var duplicate := IsDuplicate(entries, fullText);
          if !duplicate {
            entries := entries + [Cue(timestamp, fullText)];
          }
        }
        assert entries == kept;
        continue;
      } else {
        CuesFromSkip(lines, i);
        i := i + 1;
      }
    }
    KeepFirstDistinct([], CuesFrom(lines, 0), TextOf);
  }

  /** The rendering loop (server.py:413-420). */
  method RenderSrt(entries: seq<Cue>) returns (srt: string)
    ensures srt == SrtDocument(entries)
  {
    var srtLines: seq<string> := [];
    for index := 1 to |entries| + 1
      invariant srtLines == SrtLines(entries[..index - 1])
    {
      var entry := entries[index - 1];
      assert entries[..index][..index - 1] == entries[..index - 1];
      srtLines := srtLines + [NatToString(index), entry.timestamp, entry.text, ""];
    }
    assert entries[..|entries|] == entries;
    srt := Join("\n", srtLines);
  }

  /** convert_vtt_to_srt on the file's content. */
  method ConvertVttToSrt(content: string) returns (srt: string)
    ensures srt == SrtOf(content)
  {
    var lines := Split(content, '\n');
    var entries := ParseSrtEntries(lines);
    srt := RenderSrt(entries);
  }
}
