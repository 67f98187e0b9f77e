/** Two filename rules from the Flask routes of server.py: the name a
    cached subtitle file is offered under for download (download_file,
    server.py:702-707) and the extension check on an uploaded banner image
    (admin_upload, server.py:935-947). The file system, the HTTP request
    and the response are left out; both rules take the filename as a
    string. */
module Routes {
  import opened Text

  /** filename.split('_')[-1]: the text after the last `_`, or the whole
      name when there is none. */
  function LastPiece(filename: string): (r: string)
    ensures '_' !in r
  {
    var pieces := Split(filename, '_');
    JoinSplit(filename, '_');
    assert pieces[|pieces| - 1] in pieces;
    pieces[|pieces| - 1]
  }

  /** The download name of a cached file: for a `.srt` or `.txt` file the
      last `_` piece is removed wherever it occurs, trailing `_` are
      stripped and the extension is put back; any other name is kept. */
  function DownloadName(filename: string): (r: string)
    ensures EndsWith(filename, ".srt") ==> EndsWith(r, ".srt")
    ensures !EndsWith(filename, ".srt") && EndsWith(filename, ".txt") ==> EndsWith(r, ".txt")
    ensures !EndsWith(filename, ".srt") && !EndsWith(filename, ".txt") ==> r == filename
  {
    if EndsWith(filename, ".srt") then
      RStripChar(RemoveAll(filename, LastPiece(filename)), '_') + ".srt"
    else if EndsWith(filename, ".txt") then
      RStripChar(RemoveAll(filename, LastPiece(filename)), '_') + ".txt"
    else filename
  }

  /** The last `_` piece of `stem_tail` is `tail` when `tail` has no `_`. */
  lemma SplitLast(stem: string, tail: string)
    requires '_' !in tail
    ensures LastPiece(stem + "_" + tail) == tail
  {
    SplitLastFrom(stem, tail, []);
  }

  lemma {:induction false} SplitLastFrom(x: string, tail: string, cur: string)
    requires '_' !in tail
    ensures var p := SplitFrom(x + "_" + tail, '_', cur); p[|p| - 1] == tail
    decreases |x|
  {
    var s := x + "_" + tail;
    if x == [] {
      assert s[0] == '_' && s[1..] == tail;
      SplitTail(tail, []);
      assert [] + tail == tail;
    } else {
      assert s[0] == x[0] && s[1..] == x[1..] + "_" + tail;
      SplitLastFrom(x[1..], tail, if x[0] == '_' then [] else cur + [x[0]]);
    }
  }

  lemma SplitTail(tail: string, cur: string)
    requires '_' !in tail
    ensures SplitFrom(tail, '_', cur) == [cur + tail]
  {
    SplitFromNoSepAll(tail, cur);
  }

  lemma {:induction false} SplitFromNoSepAll(s: string, cur: string)
    requires '_' !in s
    ensures SplitFrom(s, '_', cur) == [cur + s]
    decreases |s|
  {
    if s != [] {
      SplitFromNoSepAll(s[1..], cur + [s[0]]);
      assert cur + [s[0]] + s[1..] == cur + s;
    } else {
      assert cur + s == cur;
    }
  }

  /** Removing every occurrence of `t` from `a + t`, when no occurrence
      starts inside `a`, leaves `a`. */
  lemma {:induction false} RemoveAllTrailing(a: string, t: string)
    requires t != []
    requires forall k :: 0 <= k < |a| ==> !StartsWith((a + t)[k..], t)
    ensures RemoveAll(a + t, t) == a
    decreases |a|
  {
    if a == [] {
      assert a + t == t;
      assert t[|t|..] == [];
    } else {
      assert (a + t)[0..] == a + t;
      assert (a + t)[1..] == a[1..] + t;
      forall k | 0 <= k < |a[1..]|
        ensures !StartsWith((a[1..] + t)[k..], t)
      {
        assert (a[1..] + t)[k..] == (a + t)[k + 1..];
      }
      RemoveAllTrailing(a[1..], t);
    }
  }

  /** A cache file `stem_tail` whose tail has no `_`, carries the
      extension and does not occur in the stem is offered as the stem,
      trailing `_` stripped, plus the extension. */
  lemma CacheDownloadName(stem: string, tail: string, ext: string)
    requires ext == ".srt" || ext == ".txt"
    requires '_' !in tail && EndsWith(tail, ext)
    requires !Contains(stem, tail)
    ensures DownloadName(stem + "_" + tail) == RStripChar(stem, '_') + ext
  {
    CacheNameRemoved(stem, tail);
    RStripCharLast(stem, '_');
    CacheNameExtension(stem, tail, ext);
  }

  /** Removing the last piece of a cache name leaves the stem and its `_`. */
  lemma CacheNameRemoved(stem: string, tail: string)
    requires '_' !in tail
    requires !Contains(stem, tail)
    ensures RemoveAll(stem + "_" + tail, LastPiece(stem + "_" + tail)) == stem + "_"
  {
    SplitLast(stem, tail);
    NoEarlyOccurrence(stem, tail);
    RemoveAllTrailing(stem + "_", tail);
  }

  /** A trailing `c` is stripped with the rest of the trailing run. */
  lemma RStripCharLast(s: string, c: char)
    ensures RStripChar(s + [c], c) == RStripChar(s, c)
  {
    assert (s + [c])[..|s|] == s;
  }

  /** A cache name ends in the extension its last piece ends in, and a
      `.txt` name does not end in `.srt`. */
  lemma CacheNameExtension(stem: string, tail: string, ext: string)
    requires ext == ".srt" || ext == ".txt"
    requires EndsWith(tail, ext)
    ensures EndsWith(stem + "_" + tail, ext)
    ensures ext == ".txt" ==> !EndsWith(stem + "_" + tail, ".srt")
  {
    var filename := stem + "_" + tail;
    assert filename[|filename| - 4..] == tail[|tail| - 4..];
  }

  /** For the cache names the downloader writes,
      `<video>_<language>_<format>_<date>_<time>.srt`, only the time part
      is dropped: a stem that does not end in `_` is kept whole. */
  lemma CacheDownloadNameKeepsStem(stem: string, tail: string, ext: string)
    requires ext == ".srt" || ext == ".txt"
    requires '_' !in tail && EndsWith(tail, ext)
    requires !Contains(stem, tail)
    requires stem != [] && stem[|stem| - 1] != '_'
    ensures DownloadName(stem + "_" + tail) == stem + ext
  {
    CacheDownloadName(stem, tail, ext);
    assert RStripChar(stem, '_') == stem;
  }

  /** No occurrence of `tail` starts before it in `stem_tail`. */
  lemma NoEarlyOccurrence(stem: string, tail: string)
    requires '_' !in tail
    requires !Contains(stem, tail)
    ensures forall k :: 0 <= k < |stem + "_"| ==> !StartsWith((stem + "_" + tail)[k..], tail)
  {
    var a := stem + "_";
    var filename := a + tail;
    ContainsAt(stem, tail);
    forall k | 0 <= k < |a|
      ensures !StartsWith(filename[k..], tail)
    {
      if k + |tail| <= |stem| {
        assert !OccursAt(stem, tail, k);
        assert filename[k..][..|tail|] == stem[k..k + |tail|];
      } else if k + |tail| <= |filename| {
        var i := |stem| - k;
        assert filename[k..][..|tail|][i] == filename[|stem|] == '_';
        assert tail[i] in tail;
      }
    }
  }

  /** The image formats a banner upload may have. */
  const AllowedExtensions: set<string> := {"png", "jpg", "jpeg", "gif", "webp"}

  /** s.rsplit(c, 1)[-1]: the text after the last `c`, or all of `s`. The
      result is a suffix of `s` without `c` that is either all of `s` or
      preceded by a `c`; so it is `s` itself exactly when `s` has no `c`. */
  function AfterLast(s: string, c: char): (r: string)
    ensures c !in r
    ensures |r| <= |s| && r == s[|s| - |r|..]
    ensures |r| < |s| ==> s[|s| - |r| - 1] == c
  {
    if s == [] then []
    else if s[|s| - 1] == c then []
    else
      var init := s[..|s| - 1];
      var r := AfterLast(init, c);
      assert s[|s| - |r| - 1..] == r + [s[|s| - 1]] by {
        assert s[|s| - |r| - 1..|s| - 1] == init[|init| - |r|..];
      }
      r + [s[|s| - 1]]
  }

  /** The extension the upload check compares: the lower-cased text after
      the last `.`, or the empty string for a name without a dot. */
  function Extension(filename: string): string {
    if '.' in filename then Lower(AfterLast(filename, '.')) else ""
  }

  /** The outcome of the upload checks: the three rejections, or
      acceptance with the extension that was judged. */
  datatype UploadCheck = NoImagePart | NoFileSelected | UnsupportedFormat | Accepted(extension: string)

  /** The checks admin_upload makes before saving: `image` is the file
      name of the request's `image` part, None when the request has none. */
  function CheckUpload(image: Option<string>): (r: UploadCheck)
    ensures r == NoImagePart <==> image.None?
    ensures r == NoFileSelected <==> image == Some("")
    ensures r.Accepted? ==> image.Some? && r.extension in AllowedExtensions && r.extension == Extension(image.value)
  {
    match image
    case None => NoImagePart
    case Some(filename) =>
      if filename == "" then NoFileSelected
      else
        var e := Extension(filename);
        if e in AllowedExtensions then Accepted(e) else UnsupportedFormat
  }

  /** The text after a `c` at index `j` that is the last `c` in `s`. */
  lemma {:induction false} AfterLastAt(s: string, c: char, j: nat)
    requires j < |s| && s[j] == c
    requires c !in s[j + 1..]
    ensures AfterLast(s, c) == s[j + 1..]
    decreases |s|
  {
    if j < |s| - 1 {
      var init := s[..|s| - 1];
      assert s[|s| - 1] in s[j + 1..];
      assert init[j + 1..] == s[j + 1..|s| - 1];
      AfterLastAt(init, c, j);
      assert s[j + 1..] == s[j + 1..|s| - 1] + [s[|s| - 1]];
    }
  }

  /** A name `stem.x`, where `x` has no dot, is judged by `x` in lower case
      alone: accepted with that extension when it is allowed, rejected
      otherwise, whatever the stem. */
  lemma UploadByExtension(stem: string, x: string)
    requires '.' !in x
    ensures CheckUpload(Some(stem + "." + x)) ==
      if Lower(x) in AllowedExtensions then Accepted(Lower(x)) else UnsupportedFormat
  {
    var filename := stem + "." + x;
    assert filename[|stem|] == '.';
    assert filename[|stem| + 1..] == x;
    AfterLastAt(filename, '.', |stem|);
  }

  /** A name without a dot is never accepted. */
  lemma UploadWithoutDot(filename: string)
    requires filename != [] && '.' !in filename
    ensures CheckUpload(Some(filename)) == UnsupportedFormat
  {
  }
}
