# YouTube subtitle extractor: the WebVTT conversion engine in Dafny

This project models the subtitle conversion engine of the YouTube subtitle
extractor web application, `server.py`, and proves properties of it.

The engine consists of two methods of `YouTubeSubtitleExtractor`:

- `convert_vtt_to_srt` turns a WebVTT caption file into numbered SRT blocks.
  - It skips header, metadata and blank lines.
  - It recognises cue-timing lines and normalises them: cue settings are removed, the line is stripped, and `.` becomes `,`.
  - It collects and tag-cleans the text lines under each timing line.
  - It drops every cue whose text equals that of a cue already kept.
- `convert_vtt_to_txt` turns the same input into deduplicated plain-text sentences.
  - It filters and tag-cleans the raw lines and keeps each line once.
  - It joins the kept lines with spaces and splits the result at `[.!?]+\s+`.
  - It keeps each stripped sentence once.

Beside them, the model covers four small rules from the same file:

- the video id extraction `extract_video_id`;
- the manual-over-automatic subtitle-language table of `get_video_info`;
- the download name `download_file` gives a cached subtitle file;
- the file-name checks of the banner upload `admin_upload`.

Modules, one per file:

- `Text` (text.dfy) holds the Python string operations the code uses, each over an explicit ASCII character set: `strip`, `split`, `join`, `startswith`, `in`, `replace(t, '')`, `rstrip(c)`, `lower`, `str(int)`.
- `Dedup` (dedup.dfy) holds the keep-first deduplication policy both converters apply, as one fold `KeepFirst` with its properties.
- `Vtt` (vtt.dfy) holds the WebVTT line handling shared by the converters.
  - Its hand-written scanners for the fixed regular expressions are `RemoveSetting` (` align:\w+` and the others) and `StripTags` (`<[^>]+>`).
  - It also holds the header and timing-line tests.
- `Srt` (srt.dfy) models `convert_vtt_to_srt`.
  - The specification functions `CuesFrom`, `KeptCues`, `SrtLines` and `SrtOf` define the result.
  - The methods `CollectCueText`, `IsDuplicate`, `ParseSrtEntries`, `RenderSrt` and `ConvertVttToSrt` are the source's loops, proved equal to those functions.
- `Txt` (txt.dfy) models `convert_vtt_to_txt` the same way.
  - The specification functions are `UniqueLines`, `SplitSentences`, `TxtSentences` and `TxtOf`.
  - The methods are `UniqueTextLines`, `UniqueSentences` and `ConvertVttToTxt`.
- `VideoId` (video_id.dfy) models `extract_video_id` as a leftmost search for each of the two patterns in turn.
- `Tracks` (tracks.dfy) models the subtitle-language table.
- `Routes` (routes.dfy) models the download name and the upload check.

Both converters take the file's content as a string. Some consequences of
the code are worth stating plainly:

- A cue is a duplicate when its text equals that of any kept cue, not only the previous one.
- The TXT converter's skip test is its own: a line with `-->`, or with at least two `:`, is skipped. The SRT timing test is not reused there.
- An empty input produces the empty output. There is no separate error value.
- For the three cues `Hello world`, `Hello world`, `Hello world. Goodbye.`, the TXT converter outputs `Hello world Hello world` and `Goodbye.`:
  - The first pass keeps `Hello world` and `Hello world. Goodbye.`.
  - Joined, these read `Hello world Hello world. Goodbye.`.
  - That splits into `Hello world Hello world` and `Goodbye.`.
  - The final punctuation stays, because no whitespace follows it: a delimiter must end in at least one whitespace character, so none ends at the end of the text (`Txt.DelimMatchSpec`).
- The sentence split is the leftmost-longest one: each piece runs up to the first position where a delimiter starts, and the whole `[.!?]+\s+` run there is consumed, so `a.. b` splits into `a` and `b` (`Txt.SplitSentencesSpec`, `Txt.SplitSentencesExample`).
- Cache files are named `<video>_<language>_<format>_<date>_<time>.srt`, and the download name drops only the time part, keeping the date (`Routes.CacheDownloadNameKeepsStem`).

## Model

| member | source | states |
|---|---|---|
| Text.Strip | server.py:351 | str.strip(): the result is the part s[i..j] of the input between a leading and a trailing run of whitespace, has no whitespace at either end, and a stripped string is left unchanged |
| Text.StripUnique | server.py:351 | that part is unique: stripping a + r + b, where a and b are whitespace and r has none at either end, gives exactly r |
| Text.StripParts | server.py:351 | the stripped text is empty exactly when the input is all whitespace, and it holds only characters of the input |
| Text.TrailingSpaceAll | server.py:351 | every character of the trailing run that strip() removes is whitespace |
| Text.JoinSplit | server.py:346 | content.split('\n') joined back with '\n' gives the content; no piece contains '\n'; there is one more piece than there are newlines |
| Text.SplitJoin | server.py:420 | splitting '\n'.join(xs) at '\n' gives xs back when no element contains '\n' |
| Text.ContainsAt | server.py:359 | the `in` test on strings holds exactly when the text occurs at some index |
| Text.JoinEmpty | server.py:393 | a join is empty exactly when the list is empty, given non-empty elements |
| Text.JoinChars | server.py:393 | a join of strings without a character, with a separator without it, does not contain it |
| Text.RStripChar | server.py:703 | rstrip('_') removes exactly the trailing run of '_': the result is a prefix, everything cut is '_', and the result does not end in '_' |
| Text.LowerChar | server.py:944 | lower() of one character: upper-case letters move 32 code points down, others are unchanged, and no upper-case letter results |
| Text.Lower | server.py:944 | ASCII lower(): same length, and each character is the lower-cased character at the same place of the input |
| Text.NatToString | server.py:415 | str(index) is a non-empty string of decimal digits without a leading zero |
| Text.DecimalRoundTrip | server.py:415 | reading back the decimal text of n gives n |
| Text.Run | server.py:361-364 | a greedy run of a character class stops at the end of the text or at a character outside the class |
| Text.RunInClass | server.py:361-364 | every character of a greedy run belongs to the class |
| Text.RunWhole | server.py:383 | a text made only of characters of the class is consumed whole |
| Dedup.KeepFirstIsFirsts | server.py:395-406 | keep-first deduplication returns exactly the elements whose key does not occur earlier in the input, in input order |
| Dedup.KeepFirstSummary | server.py:395-406 | from an empty start the kept elements have distinct keys, are a subsequence of the input, include every first occurrence of a key, cover every key of the input, and come from the input |
| Dedup.KeepFirstDistinct | server.py:395-406 | keep-first deduplication leaves no two kept elements with the same key |
| Dedup.KeepFirstKeys | server.py:395-406 | a key is among the kept elements exactly when it occurs in the input: nothing is lost |
| Dedup.KeepFirstKeepsFirst | server.py:395-406 | the first element with a given key is the one kept |
| Dedup.KeepFirstOrder | server.py:395-406 | the kept elements are a subsequence of the input, in source order |
| Dedup.KeepFirstFrom | server.py:453-455 | every kept element comes from the input |
| Dedup.KeepFirstExtends | server.py:403-406 | the fold only appends: what was kept earlier stays, unchanged, at the front |
| Dedup.KeepFirstStep | server.py:453-455 | one loop step over a candidate of at most one element is one step of the fold |
| Vtt.SettingMatchSpec | server.py:361-364 | a setting token (` align:\w+`, ` position:\d+%`, ` size:\d+%` or ` line:[^\s]+`) is found at the head of a text exactly when some prefix is one; the match is such a prefix and the longest one, and for the `%` classes the only one |
| Vtt.RemoveSettingSkip | server.py:361-364 | re.sub of one setting class keeps, unchanged, a prefix at none of whose positions a token starts, and continues after it |
| Vtt.RemoveSettingAt | server.py:361-364 | at the first position where a token starts, re.sub drops exactly that token and continues after it |
| Vtt.DotsToCommas | server.py:368 | replace('.', ','): same length, every '.' becomes ',', every other character stays in place, and no '.' is left |
| Vtt.DotsToCommasConcat | server.py:368 | replace('.', ',') works piece by piece over a concatenation |
| Vtt.NormalizeTiming | server.py:361-368 | a normalised timing line has no '.' and holds only characters of the line or ',' |
| Vtt.NormalizePlainTiming | server.py:361-368 | a timing line without settings is only stripped and has its dots turned into commas |
| Vtt.TimingWithSettings | server.py:361-368 | a timing string followed by ` align:<word> position:<digits>%` normalises to the stripped timing string with its dots turned into commas: both tokens are removed |
| Vtt.AlignStartPosition10 | server.py:361-368 | the settings ` align:start position:10%` are removed from any timing string |
| Vtt.TimingExample | server.py:359-368 | `00:00:01.000 --> 00:00:04.000 align:start position:10%` normalises to `00:00:01,000 --> 00:00:04,000` |
| Vtt.TagMatchSpec | server.py:383 | a `<[^>]+>` tag is found at the head of a text exactly when some prefix is one, and the match is that prefix, which is unique |
| Vtt.NoTagSpec | server.py:383 | a text has no tag left exactly when none of its slices is a `<[^>]+>` tag |
| Vtt.StripTagsSkip | server.py:383 | re.sub of tags keeps, unchanged, a prefix at none of whose positions a tag starts, and continues after it |
| Vtt.StripTagsAt | server.py:383 | at the first position where a tag starts, re.sub drops exactly that tag and continues after it |
| Vtt.StripTagsWholeTag | server.py:383 | a whole tag at the head of the text is removed and the rest is cleaned as if it were not there |
| Vtt.StripTagsOpenInside | server.py:383 | `[^>]+` admits '<', so for u and v without '>', `<u<v>` is one tag and is removed whole, though `<v>` alone is a tag too |
| Vtt.StripTagsItalic | server.py:383 | `<i>w</i>` becomes w for a text w without '<' or '>' |
| Vtt.StripTagsLeavesNoTag | server.py:383 | after one pass no tag is left anywhere in the text |
| Vtt.StripTagsNoTag | server.py:383 | text without tags is left unchanged |
| Vtt.StripTagsIdempotent | server.py:383 | removing tags twice gives the same as removing them once |
| Vtt.CleanLine | server.py:376-383 | a cleaned line is stripped, keeps only characters of the raw line, is empty exactly when the tag-free stripped line is all whitespace, and has no newline when the raw line has none |
| Vtt.CleanLineNoTag | server.py:376-383 | a line with no tag cleans to the line stripped |
| Srt.CollectEnd | server.py:375-380 | text collection stops at a blank or timing line after the timing line, or at the end of the input |
| Srt.CollectEndFirst | server.py:375-380 | no line before the end of the text is blank or a timing line: the end is the first such line |
| Srt.TextLinesBetweenProperties | server.py:375-388 | the collected text lines are non-empty and stripped, at most one per source line, and free of newlines when the source lines are |
| Srt.Cleaned | server.py:383-386 | a line contributes at most its cleaned text, nothing exactly when the tag-free stripped line is all whitespace, and what it contributes is non-empty stripped text without newline when the line has none |
| Srt.CueAt | server.py:390-393 | a timing line and its text lines give at most one cue |
| Srt.CueAtWellFormed | server.py:390-406 | a cue is emitted only with non-empty stripped text and a timing that still contains '-->', has no '.', and no newline |
| Srt.CuesWellFormed | server.py:349-410 | every cue the scan produces is well formed |
| Srt.CueOfLineWellFormed | server.py:359-393 | the cue a timing line makes from the lines below it is well formed |
| Srt.CuesFromTiming | server.py:359-408 | a timing line contributes the cue of its text lines and the scan resumes at the line that ended them |
| Srt.JoinStripped | server.py:393 | joining non-empty stripped lines with single spaces gives non-empty stripped text |
| Srt.KeptCuesProperties | server.py:395-406 | the kept entries are exactly the scanned cues whose text does not occur in an earlier cue, in source order; so they have pairwise distinct texts, are well formed, and every text of the input survives |
| Srt.SrtLinesLayout | server.py:413-418 | the output has exactly four lines per entry: index, timing, text, blank |
| Srt.SrtBlockAt | server.py:414-418 | entry k occupies lines 4k to 4k+3: its number k+1, its timing, its text and a blank line |
| Srt.SrtLinesNoNewline | server.py:413-418 | no output line contains a newline when the entries contain none |
| Srt.SrtDocumentLines | server.py:413-420 | the document is empty exactly when no entry is kept; otherwise splitting it at newlines gives the output lines back |
| Srt.SrtOutputLines | server.py:413-420 | line 4k of the output is the decimal index k+1, so the indices read back as 1..n in increasing order; it is followed by the timing, the text and a blank line |
| Srt.SrtOfProperties | server.py:339-424 | the converted document has distinct cue texts, is empty exactly when no cue is kept, and has no newline inside a timing or a text |
| Srt.CollectCueText | server.py:372-388 | the inner loop returns the cleaned text lines up to the first blank or timing line, and the index of that line, unconsumed |
| Srt.CollectStep | server.py:375-388 | a line that does not end the text appends its cleaned text to the collected lines when that is non-empty, and leaves the end unchanged |
| Srt.CuesFromSkip | server.py:350-357 | a header, blank or non-timing line adds no cue |
| Srt.CuesFromCue | server.py:390-408 | at a timing line the cue is appended unless its text is empty, its timing lost '-->' or a kept entry has its text, and the scan resumes after its text |
| Srt.IsDuplicate | server.py:396-400 | the scan flags a duplicate exactly when some kept entry has the same text |
| Srt.ParseSrtEntries | server.py:349-410 | the outer loop builds exactly the kept cues, whose texts are pairwise distinct |
| Srt.RenderSrt | server.py:413-420 | the rendering loop builds the SRT document of the entries |
| Srt.ConvertVttToSrt | server.py:339-424 | the converter returns the SRT document of the kept cues of the content's lines |
| Txt.HasKeyId | server.py:453 | a sentence is in the seen set exactly when it is among the kept ones |
| Txt.ManyColonsCount | server.py:447 | `':' in line and len(line.split(':')) >= 3` holds exactly when the line has at least two ':' |
| Txt.Candidate | server.py:437-453 | a raw line contributes at most its cleaned text; nothing exactly when the stripped line is a header or blank, holds `-->`, has at least two ':' or is all whitespace once tags are removed; what it contributes is non-empty stripped text without newline when the line has none |
| Txt.CandidatesFromProperties | server.py:437-453 | every candidate line is non-empty and stripped, and has no newline when the raw lines have none |
| Txt.UniqueLinesProperties | server.py:437-455 | the first pass keeps exactly the candidate lines that do not occur earlier, in source order; so its lines are pairwise distinct and are exactly the set of candidate lines |
| Txt.UniqueLinesNoNewline | server.py:437-455 | no first-pass line contains a newline |
| Txt.DelimMatchSpec | server.py:461 | a `[.!?]+\s+` delimiter is found at the head of a text exactly when some prefix is one, and the match is the longest such prefix |
| Txt.RunPrefix | server.py:461 | a greedy run that stops inside a text is not changed by what follows it |
| Txt.DelimPrefix | server.py:461 | a delimiter found in a text is still found when more text follows |
| Txt.PiecesFromRoundTrip | server.py:461 | re.split loses nothing: interleaving its pieces with the delimiters it consumed rebuilds the text |
| Txt.DelimsFromAreDelims | server.py:461 | everything the split consumes is a `[.!?]+\s+` delimiter |
| Txt.SplitSentencesRoundTrip | server.py:461 | the sentence split has one piece more than delimiters, interleaving them rebuilds the text, every consumed part is a delimiter, no piece contains one, and the split is the left-to-right one of `IsSplit` |
| Txt.PiecesFromSkip | server.py:461 | text at none of whose positions (in the whole text) a delimiter starts joins the current piece, and nothing in it is consumed |
| Txt.PiecesFromAt | server.py:461 | at the first position where a delimiter starts, the current piece ends there and exactly the longest delimiter at that position is consumed |
| Txt.SplitSentencesAt | server.py:461 | the first sentence is the text before the first delimiter start, and the rest is split after the longest delimiter there |
| Txt.SplitSentencesIsSplit | server.py:461 | re.split's pieces and delimiters form a left-to-right split: no delimiter starts inside a piece as it sits in the text, and each delimiter is the longest match at its position |
| Txt.IsSplitUnique | server.py:461 | any left-to-right split of a text equals re.split's pieces and delimiters, so the split is unique |
| Txt.SplitSentencesSpec | server.py:461 | pieces and delimiters form a left-to-right split of the text if and only if they are re.split's |
| Txt.IsSplitCons | server.py:461 | a left-to-right split extends at the front by a delimiter-free piece and the longest delimiter after it |
| Txt.SplitSentencesExample | server.py:461 | `a.. b` splits into `a` and `b`, consuming the whole delimiter `.. ` |
| Txt.SplitSentencesNotInside | server.py:461 | cutting `a.. b` into `a.` and `b` at `. ` is not a split, since a delimiter starts inside `a.` |
| Txt.PiecesFromNoDelim | server.py:461 | no piece returned by the split contains a delimiter |
| Txt.PiecesFromNoNewline | server.py:461 | the split of text without newlines yields pieces without newlines |
| Txt.SplitSentencesNoDelim | server.py:461 | no piece of re.split contains a sentence delimiter |
| Txt.SplitSentencesWhole | server.py:461 | text without a delimiter is returned whole, so final punctuation not followed by whitespace stays |
| Txt.StripNoDelim | server.py:465 | stripping a piece keeps it free of delimiters |
| Txt.Segment | server.py:465-466 | a piece contributes at most its stripped form, nothing exactly when it is all whitespace, and what it contributes is non-empty stripped text, free of newlines and delimiters when the piece is |
| Txt.SegmentsFromProperties | server.py:464-466 | the kept segments are non-empty and stripped, and free of newlines and delimiters when the pieces are |
| Txt.TxtSentencesProperties | server.py:458-469 | the output sentences are exactly the non-empty stripped pieces that do not occur earlier, in order; they are pairwise distinct, non-empty, stripped, without newline and without a delimiter inside |
| Txt.TxtSentencesContents | server.py:458-469 | a text is an output sentence exactly when it is non-empty and some piece of the split strips to it: no text is lost |
| Txt.TxtOfLines | server.py:469 | the text output is empty exactly when there is no sentence; otherwise reading it back line by line gives the sentences |
| Txt.UniqueTextLines | server.py:437-455 | the first loop, with its seen set, builds exactly the first-pass lines |
| Txt.UniqueSentences | server.py:464-467 | the final loop keeps each stripped, non-empty segment the first time it occurs |
| Txt.ConvertVttToTxt | server.py:426-473 | the converter returns the newline-joined deduplicated sentences of the content |
| VideoId.CaptureAt | server.py:201-202 | the capture `([^&\n?#]+)` is the longest non-empty run of id characters at that index |
| VideoId.FirstKey | server.py:201 | the alternation picks a key the text starts with |
| VideoId.DirectAt | server.py:201 | a match of the first pattern at an index captures an id contained in the URL |
| VideoId.LastParam | server.py:202 | the greedy `.*` before `v=` picks the last `v=` on the line; none is found exactly when the line has none |
| VideoId.QueryAt | server.py:202 | a match of the second pattern at an index captures an id contained in the URL |
| VideoId.MatchAt | server.py:201-202 | a match of either pattern at an index captures an id contained in the URL |
| VideoId.Search | server.py:206 | re.search returns an id contained in the URL when it finds one |
| VideoId.SearchNone | server.py:206 | re.search finds nothing exactly when the pattern matches at no index from the start onwards |
| VideoId.SearchLeftmost | server.py:206 | when k is the leftmost index at or after the start where the pattern matches, re.search returns the match at k |
| VideoId.SearchSkips | server.py:206 | indexes without a 'y' before them can be skipped in the search |
| VideoId.NoMatchWithoutY | server.py:201-202 | neither pattern matches at an index whose character is not 'y' |
| VideoId.FirstMatch | server.py:205-210 | the first pattern that matches gives an id contained in the URL |
| VideoId.ExtractVideoId | server.py:198-210 | a returned id is non-empty, free of '&', '?', '#' and newline, and contained in the URL |
| VideoId.ExtractVideoIdProperties | server.py:198-210 | a returned id is non-empty, free of '&', '?', '#' and newline, and contained in the URL; None is returned exactly when neither pattern matches at any index |
| VideoId.ExtractVideoIdFirst | server.py:205-210 | the result is the first pattern's match when it has one, and the second pattern's otherwise |
| VideoId.DirectUrl | server.py:201 | a URL whose first 'y' starts one of the three direct keys yields exactly the id after the key |
| VideoId.DirectKeyFound | server.py:201 | each of the three direct keys is recognised at the start of the text that follows it |
| VideoId.DirectAtKey | server.py:201 | right after the host, the first pattern captures the id that follows a direct key |
| VideoId.CaptureRest | server.py:201-202 | a non-empty tail made of id characters is captured whole |
| VideoId.ShortUrl | server.py:198-210 | https://youtu.be/ID yields ID |
| VideoId.WatchUrl | server.py:198-210 | https://www.youtube.com/watch?v=ID yields ID |
| VideoId.EmbedUrl | server.py:198-210 | https://www.youtube.com/embed/ID yields ID |
| Tracks.FormatsOf | server.py:252 | one format per subtitle entry: its extension, or "vtt" when it has none |
| Tracks.MergedTracks | server.py:245-262 | the table has a row for every language of either list and no other; a manual list always wins; an automatic list is used exactly for the languages without a manual one; each row carries its own language code |
| Tracks.ManualRowAdded | server.py:248-253 | one pass of the manual loop adds the language's manual row and keeps the table right for the languages done |
| Tracks.AutoRowAdded | server.py:256-262 | one pass of the automatic loop adds the automatic row only for a language without a row and keeps the table right |
| Tracks.RowsForAll | server.py:245-262 | rows for every language of either list make up the merged table |
| Tracks.MergeSubtitleTracks | server.py:245-262 | the two loops build exactly that table |
| Routes.LastPiece | server.py:703 | split('_')[-1] contains no '_' |
| Routes.SplitLast | server.py:703 | the last '_' piece of stem_tail is tail when tail has no '_' |
| Routes.DownloadName | server.py:702-707 | a '.srt' name keeps '.srt', a '.txt' name keeps '.txt', and any other name is returned unchanged |
| Routes.RemoveAllTrailing | server.py:703 | replace(t, '') on a + t, with no earlier occurrence of t, gives a |
| Routes.CacheDownloadName | server.py:703-705 | a cache name stem_tail whose last piece does not occur in the stem downloads as the stem, trailing '_' stripped, plus the extension |
| Routes.CacheDownloadNameKeepsStem | server.py:703-705 | a stem not ending in '_' is kept whole: only the time part of a cache name is dropped |
| Routes.AfterLast | server.py:944 | rsplit('.', 1)[-1]: a suffix of the name without '.', which is the whole name or follows a '.', so it is the text after the last '.' |
| Routes.AfterLastAt | server.py:944 | the text after a '.' that is the last one in the name is what rsplit returns |
| Routes.CheckUpload | server.py:935-947 | a missing image part and an empty file name are rejected as such, and an accepted file's extension is the lower-cased extension of its name and is allowed |
| Routes.UploadByExtension | server.py:943-947 | a name stem.x, where x has no '.', is accepted exactly when lower(x) is an allowed extension, whatever the stem |
| Routes.UploadWithoutDot | server.py:944-947 | a non-empty name without a '.' is rejected as unsupported |

## Left out

- Reading the file (server.py:342-343 and 429-430) is left out: the converters take its content as a string.
- The `try/except` fallbacks that return `""` (server.py:422-424 and 471-473) are left out. They guard only I/O and library faults, and the model is total.
- Only ASCII is modelled for Unicode whitespace, `\w`, `\d` and `lower()`. Python's `str.strip`, `\s` and `\w` also accept non-ASCII characters, and `lower()` maps non-ASCII letters.
- The yt-dlp calls (`extract_info`, `download`), its installation, and the video metadata fields of `get_video_info` are left out. They are a foreign library and the network. The subtitle table takes yt-dlp's two per-language lists as maps, each entry reduced to its optional `ext` field.
- Tracks.MergeSubtitleTracks: the insertion order of the Python dictionary is not modelled, because the table is a map and only its contents are stated.
- The Flask routes, sessions, admin authentication, SQLite storage, the `VisitorTracker` thread and the wall clock are left out, as is saving the uploaded file. None of them is part of the conversion engine.
- The download route's file-existence check and `send_file` are left out: they are file-system I/O. Only the name rule is modelled.
- VideoId: the literal URL lemmas cover the three direct forms. A literal `watch?...&v=ID` URL for the second pattern is not stated, because its proof over literal strings is too costly. The second pattern is covered in general by `LastParam`, `QueryAt` and `ExtractVideoIdProperties`.
