/** The subtitle-language table get_video_info builds (server.py:245-262)
    from the two per-language lists yt-dlp reports: every manual language,
    then every automatic language not already present. Each yt-dlp entry
    is reduced to its optional `ext` field; the yt-dlp call itself is left
    out. */
module Tracks {
  import opened Text

  datatype TrackKind = Manual | Auto

  /** One row of the table: its type, its language code and its formats. */
  datatype SubtitleTrack = SubtitleTrack(kind: TrackKind, language: string, formats: seq<string>)

  /** [sub.get('ext', 'vtt') for sub in subs]. */
  function FormatsOf(subs: seq<Option<string>>): (r: seq<string>)
    ensures |r| == |subs|
    ensures forall i :: 0 <= i < |subs| ==> r[i] == (if subs[i].Some? then subs[i].value else "vtt")
  {
    if subs == [] then [] else [if subs[0].Some? then subs[0].value else "vtt"] + FormatsOf(subs[1..])
  }

  /** The row a language gets: from the manual list when it has one there,
      otherwise from the automatic list. */
  function TrackFor(manual: map<string, seq<Option<string>>>, auto: map<string, seq<Option<string>>>, lang: string): SubtitleTrack
    requires lang in manual || lang in auto
  {
    if lang in manual then SubtitleTrack(Manual, lang, FormatsOf(manual[lang]))
    else SubtitleTrack(Auto, lang, FormatsOf(auto[lang]))
  }

  /** The table as a whole: every language of either list has a row, and
      no other; a manual list always wins; an automatic list is used
      exactly for the languages without a manual one; each row carries its
      own language code. */
  function MergedTracks(manual: map<string, seq<Option<string>>>, auto: map<string, seq<Option<string>>>): (r: map<string, SubtitleTrack>)
    ensures r.Keys == manual.Keys + auto.Keys
    ensures forall lang :: lang in manual ==> r[lang] == SubtitleTrack(Manual, lang, FormatsOf(manual[lang]))
    ensures forall lang :: lang in auto && lang !in manual ==> r[lang] == SubtitleTrack(Auto, lang, FormatsOf(auto[lang]))
    ensures forall lang :: lang in r ==> r[lang].language == lang && (r[lang].kind == Auto <==> lang !in manual)
  {
    map lang | lang in manual.Keys + auto.Keys :: TrackFor(manual, auto, lang)
  }

  /** `m` holds exactly the rows of the languages in `keys`, each as the
      merged table has it. */
  predicate RowsFor(m: map<string, SubtitleTrack>, manual: map<string, seq<Option<string>>>,
                    auto: map<string, seq<Option<string>>>, keys: set<string>) {
    && keys <= manual.Keys + auto.Keys
    && m.Keys == keys
    && forall lang :: lang in m ==> m[lang] == TrackFor(manual, auto, lang)
  }

  /** One pass of the manual loop: the row of `lang` is added. */
  lemma ManualRowAdded(m: map<string, SubtitleTrack>, manual: map<string, seq<Option<string>>>,
                       auto: map<string, seq<Option<string>>>, langs: set<string>, lang: string)
    requires langs <= manual.Keys && lang in langs
    requires RowsFor(m, manual, auto, manual.Keys - langs)
    ensures RowsFor(m[lang := SubtitleTrack(Manual, lang, FormatsOf(manual[lang]))], manual, auto, manual.Keys - (langs - {lang}))
  {
    assert manual.Keys - (langs - {lang}) == manual.Keys - langs + {lang};
  }

  /** One pass of the automatic loop: the row of `lang` is added unless
      the language already has one. */
  lemma AutoRowAdded(m: map<string, SubtitleTrack>, manual: map<string, seq<Option<string>>>,
                     auto: map<string, seq<Option<string>>>, langs: set<string>, lang: string)
    requires langs <= auto.Keys && lang in langs
    requires RowsFor(m, manual, auto, manual.Keys + (auto.Keys - langs))
    ensures var m' := if lang !in m then m[lang := SubtitleTrack(Auto, lang, FormatsOf(auto[lang]))] else m;
      RowsFor(m', manual, auto, manual.Keys + (auto.Keys - (langs - {lang})))
  {
    assert manual.Keys + (auto.Keys - (langs - {lang})) == manual.Keys + (auto.Keys - langs) + {lang};
  }

  /** Rows for every language of either list make up the merged table. */
  lemma RowsForAll(m: map<string, SubtitleTrack>, manual: map<string, seq<Option<string>>>,
                   auto: map<string, seq<Option<string>>>)
    requires RowsFor(m, manual, auto, manual.Keys + auto.Keys)
    ensures m == MergedTracks(manual, auto)
  {
  }

  /** The two loops of get_video_info over the manual and the automatic
      lists. Python's dictionaries keep insertion order; the table here is
      a map, so only its contents are modelled. */
  method MergeSubtitleTracks(manual: map<string, seq<Option<string>>>, auto: map<string, seq<Option<string>>>)
    returns (availableSubs: map<string, SubtitleTrack>)
    ensures availableSubs == MergedTracks(manual, auto)
  {
    availableSubs := map[];
    var langs := manual.Keys;
    while langs != {}
      invariant langs <= manual.Keys
      invariant RowsFor(availableSubs, manual, auto, manual.Keys - langs)
      decreases langs
    {
      var lang :| lang in langs;
      ManualRowAdded(availableSubs, manual, auto, langs, lang);
      availableSubs := availableSubs[lang := SubtitleTrack(Manual, lang, FormatsOf(manual[lang]))];
      langs := langs - {lang};
    }
    langs := auto.Keys;
    while langs != {}
      invariant langs <= auto.Keys
      invariant RowsFor(availableSubs, manual, auto, manual.Keys + (auto.Keys - langs))
      decreases langs
    {
      var lang :| lang in langs;
      AutoRowAdded(availableSubs, manual, auto, langs, lang);
      if lang !in availableSubs {
        availableSubs := availableSubs[lang := SubtitleTrack(Auto, lang, FormatsOf(auto[lang]))];
      }
      langs := langs - {lang};
    }
    assert auto.Keys - langs == auto.Keys;
    RowsForAll(availableSubs, manual, auto);
  }
}
