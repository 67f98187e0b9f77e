/** The WebVTT line handling shared by the two converters in server.py:
    which lines are header, metadata or blank, which are cue-timing lines,
    how a timing line is rewritten into SRT form (cue settings removed,
    `.` turned into `,`), and how a text line is cleaned of `<...>` tags.
    Each regular expression of the source is hand-written as a scanner
    over its fixed token class. */
module Vtt {
  import opened Text

  /** The four cue-setting token classes the SRT converter strips from a
      timing line: ` align:\w+`, ` position:\d+%`, ` size:\d+%` and
      ` line:[^\s]+`. */
  datatype Setting = Align | Position | Size | Line

  /** The literal text every token of the class starts with, leading space included. */
  function Key(st: Setting): string {
    match st
    case Align => " align:"
    case Position => " position:"
    case Size => " size:"
    case Line => " line:"
  }

  /** The character class of the token's value. */
  function Value(st: Setting): CharClass {
    match st
    case Align => Word
    case Position => Digit
    case Size => Digit
    case Line => NonSpace
  }

  /** The value is followed by a literal `%`. */
  predicate EndsInPercent(st: Setting) {
    st == Position || st == Size
  }

  /** Length of the token of class `st` that starts at the beginning of `s`,
      or 0 when none does. */
  function SettingMatch(st: Setting, s: string): (m: nat)
    ensures m == 0 || (StartsWith(s, Key(st)) && |Key(st)| < m <= |s|)
  {
    TokenMatch(Key(st), Value(st), EndsInPercent(st), s)
  }

  /** The scanner behind SettingMatch, for the pattern `key` `cls+`, with a
      literal `%` after the run when `percent` holds. The value run is
      greedy; when a `%` must follow and does not, a shorter run cannot help
      (the character after it would be in `cls`), so there is no match. */
  function TokenMatch(key: string, cls: CharClass, percent: bool, s: string): (m: nat)
    ensures m == 0 || (StartsWith(s, key) && |key| < m <= |s|)
  {
    if !StartsWith(s, key) then 0
    else
      var n := Run(s[|key|..], cls);
      if n == 0 then 0
      else if !percent then |key| + n
      else if |key| + n < |s| && s[|key| + n] == '%' then |key| + n + 1
      else 0
  }

  /** `t` is one whole token of class `st`: the key, a non-empty run of
      the value class, and the `%` when the class ends in one. */
  predicate IsToken(st: Setting, t: string) {
    IsTokenOf(Key(st), Value(st), EndsInPercent(st), t)
  }

  predicate IsTokenOf(key: string, cls: CharClass, percent: bool, t: string) {
    var e := if percent then |t| - 1 else |t|;
    StartsWith(t, key) && |key| < e && (percent ==> t[e] == '%') && AllIn(t[|key|..e], cls)
  }

  /** SettingMatch finds a token at the head of `s` exactly when some
      prefix of `s` is one, and returns the longest such prefix (greedy
      value run); for the `%` classes that prefix is the only one. */
  lemma SettingMatchSpec(st: Setting, s: string)
    ensures SettingMatch(st, s) > 0 ==> IsToken(st, s[..SettingMatch(st, s)])
    ensures forall j :: 0 < j <= |s| && IsToken(st, s[..j]) ==> SettingMatch(st, s) >= j
    ensures forall j :: 0 < j <= |s| && IsToken(st, s[..j]) && EndsInPercent(st) ==> SettingMatch(st, s) == j
  {
    var key, cls, percent := Key(st), Value(st), EndsInPercent(st);
    if SettingMatch(st, s) > 0 {
      TokenMatchSound(key, cls, percent, s);
    }
    forall j | 0 < j <= |s| && IsToken(st, s[..j])
      ensures SettingMatch(st, s) >= j && (EndsInPercent(st) ==> SettingMatch(st, s) == j)
    {
      assert percent ==> !InClass('%', cls);
      TokenMatchGreedy(key, cls, percent, s, j);
    }
  }

  lemma TokenMatchSound(key: string, cls: CharClass, percent: bool, s: string)
    requires TokenMatch(key, cls, percent, s) > 0
    ensures IsTokenOf(key, cls, percent, s[..TokenMatch(key, cls, percent, s)])
  {
    var K := |key|;
    var m := TokenMatch(key, cls, percent, s);
    var rest := s[K..];
    var n := Run(rest, cls);
    RunInClass(rest, cls);
    var t := s[..m];
    assert t[..K] == s[..K];
    var e := K + n;
    if percent {
      assert m == e + 1 && t[e] == s[e] == '%';
    }
    forall k | 0 <= k < n
      ensures InClass(t[K..e][k], cls)
    {
      assert t[K..e][k] == rest[k];
    }
  }

  lemma TokenMatchGreedy(key: string, cls: CharClass, percent: bool, s: string, j: nat)
    requires percent ==> !InClass('%', cls)
    requires 0 < j <= |s| && IsTokenOf(key, cls, percent, s[..j])
    ensures TokenMatch(key, cls, percent, s) >= j
    ensures percent ==> TokenMatch(key, cls, percent, s) == j
  {
    var K := |key|;
    var t := s[..j];
    assert t[..K] == s[..K];
    var rest := s[K..];
    var e := if percent then j - 1 else j;
    forall k | 0 <= k < e - K
      ensures InClass(rest[k], cls)
    {
      assert rest[k] == t[K..e][k];
    }
    if percent {
      assert rest[e - K] == t[e];
      RunExact(rest, cls, e - K);
    } else {
      RunAtLeast(rest, cls, e - K);
    }
  }

  /** Length of the token of class `st` starting at index i of `s`, or 0. */
  function SettingAt(st: Setting, s: string, i: nat): nat
    requires i <= |s|
  {
    SettingMatch(st, s[i..])
  }

  /** re.sub(<pattern of st>, '', s): scan left to right, drop every token
      found, and resume after it without rescanning the joined text. */
  function RemoveSetting(st: Setting, s: string): (r: string)
    decreases |s|
    ensures |r| <= |s|
    ensures forall c :: c in r ==> c in s
    ensures !Contains(s, Key(st)) ==> r == s
  {
    if s == [] then []
    else
      var m := SettingMatch(st, s);
      if m > 0 then RemoveSetting(st, s[m..])
      else [s[0]] + RemoveSetting(st, s[1..])
  }

  /** Text in front of the first token is kept as it is: when no token
      starts inside `a`, the substitution only works on what follows it. */
  lemma {:induction false} RemoveSettingSkip(st: Setting, a: string, b: string)
    requires forall i :: 0 <= i < |a| ==> SettingAt(st, a + b, i) == 0
    ensures RemoveSetting(st, a + b) == a + RemoveSetting(st, b)
    decreases |a|
  {
    if a == [] {
      assert a + b == b;
    } else {
      var s := a + b;
      var t := s[1..];
      assert t == a[1..] + b;
      assert RemoveSetting(st, s) == [a[0]] + RemoveSetting(st, t) by {
        assert SettingAt(st, s, 0) == 0 && s[0..] == s;
      }
      forall i | 0 <= i < |a| - 1
        ensures SettingAt(st, t, i) == 0
      {
        assert SettingAt(st, s, i + 1) == 0;
        assert t[i..] == s[i + 1..];
      }
      RemoveSettingSkip(st, a[1..], b);
      ConsSplit(a, RemoveSetting(st, b));
    }
  }

  /** The first token, at the head of `b`, is removed with nothing in front
      of it touched. */
  lemma RemoveSettingAt(st: Setting, a: string, b: string)
    requires forall i :: 0 <= i < |a| ==> SettingAt(st, a + b, i) == 0
    requires SettingMatch(st, b) > 0
    ensures RemoveSetting(st, a + b) == a + RemoveSetting(st, b[SettingMatch(st, b)..])
  {
    RemoveSettingSkip(st, a, b);
  }

  lemma ConsSplit(a: string, r: string)
    requires a != []
    ensures [a[0]] + (a[1..] + r) == a + r
  {
  }

  /** timestamp_line.replace('.', ','). */
  function DotsToCommas(s: string): (r: string)
    ensures |r| == |s|
    ensures '.' !in r
    ensures forall k :: 0 <= k < |s| ==> r[k] == if s[k] == '.' then ',' else s[k]
  {
    if s == [] then [] else [if s[0] == '.' then ',' else s[0]] + DotsToCommas(s[1..])
  }

  /** The SRT timing string made from a WebVTT timing line: the four
      setting classes removed in order, the result stripped, and every `.`
      turned into `,`. */
  function NormalizeTiming(line: string): (r: string)
    ensures '.' !in r
    ensures forall c :: c in r ==> c in line || c == ','
  {
    var noSettings := RemoveSetting(Line, RemoveSetting(Size, RemoveSetting(Position, RemoveSetting(Align, line))));
    StripParts(noSettings);
    DotsToCommasChars(Strip(noSettings));
    DotsToCommas(Strip(noSettings))
  }

  /** No lower-case ASCII letter: true of a timing string, which holds only
      digits, `:`, `.`, spaces and the arrow. */
  predicate NoLower(s: string) {
    forall k :: 0 <= k < |s| ==> !('a' <= s[k] <= 'z')
  }

  /** A WebVTT timing line carrying ` align:<word>` and ` position:<n>%`,
      the settings YouTube writes, comes out as the bare SRT timing: both
      tokens removed, then the result stripped and its dots turned into
      commas. */
  lemma TimingWithSettings(t: string, a: string, p: string)
    requires NoLower(t)
    requires a != [] && AllIn(a, Word)
    requires p != [] && AllIn(p, Digit)
    ensures NormalizeTiming(t + " align:" + a + " position:" + p + "%") == DotsToCommas(Strip(t))
  {
    var b2 := " position:" + p + "%";
    var b1 := " align:" + a + b2;
    assert t + " align:" + a + " position:" + p + "%" == t + b1;
    // The align token is the first one, and nothing else matches its class.
    KeyBlocked(Align, t, b1);
    AlignTokenLength(a, b2);
    RemoveSettingAt(Align, t, b1);
    AlignAbsent(b2, p);
    assert RemoveSetting(Align, t + b1) == t + b2;
    // The position token then ends the line.
    KeyBlocked(Position, t, b2);
    PositionTokenLength(b2, p);
    RemoveSettingAt(Position, t, b2);
    assert b2[|b2|..] == [] && t + [] == t;
    // The other two classes never occur in a timing string.
    NoLowerNoKey(Size, t);
    NoLowerNoKey(Line, t);
  }

  /** The settings YouTube writes, ` align:start position:10%`, are removed
      from any timing string. */
  lemma AlignStartPosition10(t: string)
    requires NoLower(t)
    ensures NormalizeTiming(t + " align:start position:10%") == DotsToCommas(Strip(t))
  {
    assert AllIn("start", Word) by {
      assert forall k :: 0 <= k < 5 ==> IsWordChar("start"[k]);
    }
    assert AllIn("10", Digit);
    TimingWithSettings(t, "start", "10");
    SettingsLiteral();
    ConcatAssoc(t, " align:", "start", " position:", "10", "%");
  }

  /** A cue timing line as YouTube writes it. */
  lemma TimingExample()
    ensures NormalizeTiming("00:00:01.000 --> 00:00:04.000" + " align:start position:10%") == "00:00:01,000 --> 00:00:04,000"
  {
    var t := "00:00:01.000 --> 00:00:04.000";
    ExampleNoLower();
    AlignStartPosition10(t);
    ExampleStripped();
    ExampleCommas();
  }

  lemma ExampleNoLower()
    ensures NoLower("00:00:01.000 --> 00:00:04.000")
  {
  }

  lemma ExampleStripped()
    ensures Strip("00:00:01.000 --> 00:00:04.000") == "00:00:01.000 --> 00:00:04.000"
  {
    assert IsStripped("00:00:01.000 --> 00:00:04.000");
  }

  lemma ExampleCommas()
    ensures DotsToCommas("00:00:01.000 --> 00:00:04.000") == "00:00:01,000 --> 00:00:04,000"
  {
    ExampleSplit();
    DotsToCommasTwoDots("00:00:01", "000 --> 00:00:04", "000");
    ExampleJoin();
  }

  /** Two dots between dot-free parts become two commas, nothing else changes. */
  lemma DotsToCommasTwoDots(a: string, b: string, c: string)
    requires '.' !in a && '.' !in b && '.' !in c
    ensures DotsToCommas(a + ("." + (b + ("." + c)))) == a + ("," + (b + ("," + c)))
  {
    DotsToCommasConcat(a, "." + (b + ("." + c)));
    DotsToCommasConcat(".", b + ("." + c));
    DotsToCommasConcat(b, "." + c);
    DotsToCommasConcat(".", c);
    assert DotsToCommas(a) == a && DotsToCommas(b) == b && DotsToCommas(c) == c;
  }

  lemma ExampleSplit()
    ensures "00:00:01.000 --> 00:00:04.000" == "00:00:01" + ("." + ("000 --> 00:00:04" + ("." + "000")))
  {
  }

  lemma ExampleJoin()
    ensures "00:00:01" + ("," + ("000 --> 00:00:04" + ("," + "000"))) == "00:00:01,000 --> 00:00:04,000"
  {
  }

  /** replace('.', ',') works piece by piece. */
  lemma {:induction false} DotsToCommasConcat(a: string, b: string)
    ensures DotsToCommas(a + b) == DotsToCommas(a) + DotsToCommas(b)
  {
    if a != [] {
      assert (a + b)[0] == a[0] && (a + b)[1..] == a[1..] + b;
      DotsToCommasConcat(a[1..], b);
    }
  }

  lemma SettingsLiteral()
    ensures " align:" + "start" + " position:" + "10" + "%" == " align:start position:10%"
  {
  }

  lemma ConcatAssoc(t: string, a: string, b: string, c: string, d: string, e: string)
    ensures t + a + b + c + d + e == t + (a + b + c + d + e)
  {
  }

  /** No token can start inside a string without lower-case letters when a
      space follows it: every key's second character is a lower-case letter. */
  lemma KeyBlocked(st: Setting, t: string, b: string)
    requires NoLower(t)
    requires b != [] && b[0] == ' '
    ensures forall i :: 0 <= i < |t| ==> SettingAt(st, t + b, i) == 0
  {
    var s := t + b;
    forall i | 0 <= i < |t|
      ensures SettingAt(st, s, i) == 0
    {
      var x := s[i..];
      assert 'a' <= Key(st)[1] <= 'z';
      if i + 1 < |t| {
        assert x[1] == t[i + 1];
      } else {
        assert x[1] == b[0];
      }
      if |Key(st)| <= |x| {
        assert x[..|Key(st)|][1] == x[1];
      }
    }
  }

  lemma NoLowerNoKey(st: Setting, t: string)
    requires NoLower(t)
    ensures !Contains(t, Key(st))
  {
    ContainsAt(t, Key(st));
    assert 'a' <= Key(st)[1] <= 'z';
    forall k | 0 <= k <= |t| - |Key(st)|
      ensures !OccursAt(t, Key(st), k)
    {
      assert t[k..k + |Key(st)|][1] == t[k + 1];
    }
  }

  lemma AlignTokenLength(a: string, b: string)
    requires a != [] && AllIn(a, Word)
    requires b != [] && b[0] == ' '
    ensures SettingMatch(Align, " align:" + a + b) == 7 + |a|
    ensures (" align:" + a + b)[7 + |a|..] == b
  {
    var s := " align:" + a + b;
    assert s[..7] == " align:";
    var rest := s[7..];
    assert rest == a + b;
    assert rest[|a|] == b[0];
    forall k | 0 <= k < |a|
      ensures InClass(rest[k], Word)
    {
      assert rest[k] == a[k];
    }
    RunExact(rest, Word, |a|);
  }

  lemma AlignAbsent(b: string, p: string)
    requires b == " position:" + p + "%"
    requires AllIn(p, Digit)
    ensures RemoveSetting(Align, b) == b
  {
    assert b[..7] != Key(Align) by {
      assert b[..7][1] == 'p';
    }
    var tail := b[1..];
    assert tail == "position:" + p + "%";
    assert ' ' !in tail by {
      forall k | 0 <= k < |tail|
        ensures tail[k] != ' '
      {
        if k >= 9 && k < 9 + |p| {
          assert tail[k] == p[k - 9];
        }
      }
    }
    ContainsAt(tail, Key(Align));
    forall k | 0 <= k <= |tail| - 7
      ensures !OccursAt(tail, Key(Align), k)
    {
      assert tail[k..k + 7][0] == tail[k];
    }
    assert [b[0]] + tail == b;
  }

  lemma PositionTokenLength(b: string, p: string)
    requires b == " position:" + p + "%"
    requires p != [] && AllIn(p, Digit)
    ensures SettingMatch(Position, b) == |b|
  {
    assert b[..|b|] == b;
    assert b[..10] == Key(Position);
    assert b[10..|b| - 1] == p;
    SettingMatchSpec(Position, b);
  }

  lemma DotsToCommasChars(s: string)
    ensures forall c :: c in DotsToCommas(s) ==> c in s || c == ','
  {
    var r := DotsToCommas(s);
    forall c | c in r
      ensures c in s || c == ','
    {
      var k :| 0 <= k < |r| && r[k] == c;
      if s[k] != '.' {
        assert s[k] == c;
      }
    }
  }

  /** A timing line carrying none of the four settings is only stripped
      and has its dots turned into commas. */
  lemma NormalizePlainTiming(line: string)
    requires !Contains(line, Key(Align)) && !Contains(line, Key(Position))
    requires !Contains(line, Key(Size)) && !Contains(line, Key(Line))
    ensures NormalizeTiming(line) == DotsToCommas(Strip(line))
  {
  }

  /** Length of the `<[^>]+>` tag starting at the beginning of `s`, or 0. */
  function TagMatch(s: string): (m: nat)
    ensures m == 0 || (2 < m <= |s| && s[0] == '<' && s[m - 1] == '>')
  {
    if s == [] || s[0] != '<' then 0
    else
      var n := Run(s[1..], NotGt);
      if 0 < n && 1 + n < |s| then n + 2 else 0
  }

  /** `t` is one whole `<[^>]+>` tag. */
  predicate IsTag(t: string) {
    |t| >= 3 && t[0] == '<' && t[|t| - 1] == '>' && AllIn(t[1..|t| - 1], NotGt)
  }

  /** TagMatch finds a tag at the head of `s` exactly when some prefix of
      `s` is a tag, and then returns that prefix's length (a tag ends at its
      first `>`, so there is at most one). */
  lemma TagMatchSpec(s: string)
    ensures TagMatch(s) > 0 ==> IsTag(s[..TagMatch(s)])
    ensures forall j :: 0 < j <= |s| && IsTag(s[..j]) ==> TagMatch(s) == j
  {
    if s != [] && s[0] == '<' {
      RunInClass(s[1..], NotGt);
      var n := Run(s[1..], NotGt);
      var m := TagMatch(s);
      if m > 0 {
        assert s[..m][1..m - 1] == s[1..][..n];
      }
      forall j | 0 < j <= |s| && IsTag(s[..j])
        ensures TagMatch(s) == j
      {
        assert forall k :: 0 <= k < j - 2 ==> s[1..][k] == s[..j][1..j - 1][k];
        assert s[1..][j - 2] == s[..j][j - 1];
        RunExact(s[1..], NotGt, j - 2);
      }
    }
  }

  /** Length of the tag starting at index i of `s`, or 0. */
  function TagAt(s: string, i: nat): nat
    requires i <= |s|
  {
    TagMatch(s[i..])
  }

  /** No `<[^>]+>` tag starts anywhere in `s`. */
  predicate NoTag(s: string) {
    forall k :: 0 <= k < |s| ==> TagMatch(s[k..]) == 0
  }

  /** NoTag means what it says: no slice of `s` is a tag. */
  lemma NoTagSpec(s: string)
    ensures NoTag(s) <==> forall i, j :: 0 <= i < j <= |s| ==> !IsTag(s[i..j])
  {
    if NoTag(s) {
      forall i, j | 0 <= i < j <= |s|
        ensures !IsTag(s[i..j])
      {
        TagMatchSpec(s[i..]);
        assert s[i..][..j - i] == s[i..j];
      }
    }
    if forall i, j :: 0 <= i < j <= |s| ==> !IsTag(s[i..j]) {
      forall k | 0 <= k < |s|
        ensures TagMatch(s[k..]) == 0
      {
        TagMatchSpec(s[k..]);
        var m := TagMatch(s[k..]);
        assert s[k..][..m] == s[k..k + m];
      }
    }
  }

  /** re.sub(r'<[^>]+>', '', s). */
  function StripTags(s: string): (r: string)
    decreases |s|
    ensures |r| <= |s|
    ensures forall c :: c in r ==> c in s
    ensures '<' !in s ==> r == s
  {
    if s == [] then []
    else
      var m := TagMatch(s);
      if m > 0 then StripTags(s[m..]) else [s[0]] + StripTags(s[1..])
  }

  /** After one pass no tag is left: a `<` that survives is either followed
      directly by `>` or has no `>` after it at all. */
  lemma {:induction false} StripTagsLeavesNoTag(s: string)
    ensures NoTag(StripTags(s))
    decreases |s|
  {
    if s != [] {
      var m := TagMatch(s);
      if m > 0 {
        StripTagsLeavesNoTag(s[m..]);
      } else {
        StripTagsLeavesNoTag(s[1..]);
        FirstNoTag(s);
        NoTagCons(s[0], StripTags(s[1..]));
      }
    }
  }

  /** When no tag starts at the head of `s`, none starts at the head of
      what StripTags makes of it. */
  lemma FirstNoTag(s: string)
    requires s != [] && TagMatch(s) == 0
    ensures TagMatch([s[0]] + StripTags(s[1..])) == 0
  {
    var tail := StripTags(s[1..]);
    var r := [s[0]] + tail;
    if s[0] == '<' && |r| > 1 {
      var n := Run(s[1..], NotGt);
      if n == 0 {
        // s[1] is '>', which StripTags keeps in place.
        assert s[1] == '>';
        assert TagMatch(s[1..]) == 0;
        assert tail[0] == '>';
        assert Run(r[1..], NotGt) == 0;
      } else {
        // No '>' follows the '<' in s, hence none in r.
        RunInClass(s[1..], NotGt);
        assert 1 + n == |s|;
        assert '>' !in s[1..];
        assert '>' !in tail;
        assert r[1..] == tail;
        RunWhole(tail, NotGt);
      }
    }
  }

  /** A character in front of a tag-free string adds no tag unless one
      starts at that character. */
  lemma NoTagCons(c: char, tail: string)
    requires NoTag(tail)
    requires TagMatch([c] + tail) == 0
    ensures NoTag([c] + tail)
  {
    var r := [c] + tail;
    forall k | 0 <= k < |r|
      ensures TagMatch(r[k..]) == 0
    {
      if k == 0 {
        assert r[0..] == r;
      } else {
        assert r[k..] == tail[k - 1..];
      }
    }
  }

  /** A string without tags is left as it is. */
  lemma {:induction false} StripTagsNoTag(s: string)
    requires NoTag(s)
    ensures StripTags(s) == s
    decreases |s|
  {
    if s != [] {
      assert TagMatch(s[0..]) == 0;
      assert s[0..] == s;
      assert NoTag(s[1..]) by {
        forall k | 0 <= k < |s[1..]|
          ensures TagMatch(s[1..][k..]) == 0
        {
          assert s[1..][k..] == s[k + 1..];
        }
      }
      StripTagsNoTag(s[1..]);
    }
  }

  /** Text in front of the first tag is kept as it is: when no tag starts
      inside `a`, StripTags only works on what follows it. */
  lemma {:induction false} StripTagsSkip(a: string, b: string)
    requires forall i :: 0 <= i < |a| ==> TagAt(a + b, i) == 0
    ensures StripTags(a + b) == a + StripTags(b)
    decreases |a|
  {
    if a == [] {
      assert a + b == b;
    } else {
      var s := a + b;
      var t := s[1..];
      assert t == a[1..] + b;
      assert StripTags(s) == [a[0]] + StripTags(t) by {
        assert TagAt(s, 0) == 0 && s[0..] == s;
      }
      forall i | 0 <= i < |a| - 1
        ensures TagAt(t, i) == 0
      {
        assert TagAt(s, i + 1) == 0;
        assert t[i..] == s[i + 1..];
      }
      StripTagsSkip(a[1..], b);
      ConsSplit(a, StripTags(b));
    }
  }

  /** The first tag, at the head of `b`, is dropped with nothing in front of
      it touched. */
  lemma StripTagsAt(a: string, b: string)
    requires forall i :: 0 <= i < |a| ==> TagAt(a + b, i) == 0
    requires TagMatch(b) > 0
    ensures StripTags(a + b) == a + StripTags(b[TagMatch(b)..])
  {
    StripTagsSkip(a, b);
    assert StripTags(b) == StripTags(b[TagMatch(b)..]);
  }

  /** An italic span loses its markup: `<i>w</i>` becomes `w` when `w` holds
      no angle bracket. */
  /** A whole tag at the head of the text is removed and nothing else. */
  lemma StripTagsWholeTag(t: string, rest: string)
    requires IsTag(t)
    ensures StripTags(t + rest) == StripTags(rest)
  {
    var s := t + rest;
    assert s[..|t|] == t;
    TagMatchSpec(s);
    assert s[|t|..] == rest;
    StripTagsAt([], s);
    assert [] + s == s;
  }

  /** `[^>]+` lets a `<` into a tag: `<u<v>` is one tag, removed whole, even
      though `<v>` alone is a tag too. */
  lemma StripTagsOpenInside(u: string, v: string, rest: string)
    requires '>' !in u && '>' !in v
    ensures StripTags("<" + u + "<" + v + ">" + rest) == StripTags(rest)
  {
    var t := "<" + u + "<" + v + ">";
    var m := u + "<" + v;
    assert t[1..|t| - 1] == m;
    forall k | 0 <= k < |m|
      ensures InClass(m[k], NotGt)
    {
      assert m[k] in u || m[k] == '<' || m[k] in v by {
        if k < |u| { assert m[k] == u[k]; }
        else if k > |u| { assert m[k] == v[k - |u| - 1]; }
      }
    }
    StripTagsWholeTag(t, rest);
  }

  lemma StripTagsItalic(w: string)
    requires '<' !in w && '>' !in w
    ensures StripTags("<i>" + w + "</i>") == w
  {
    var s := "<i>" + w + "</i>";
    var rest := w + "</i>";
    assert s[..3] == "<i>" && IsTag("<i>");
    TagMatchSpec(s);
    assert s[3..] == rest;
    forall i | 0 <= i < |w|
      ensures TagAt(rest, i) == 0
    {
      assert rest[i..][0] == w[i];
    }
    assert IsTag("</i>") && "</i>"[..4] == "</i>";
    TagMatchSpec("</i>");
    StripTagsAt(w, "</i>");
  }

  /** Removing tags twice removes nothing more than removing them once. */
  lemma StripTagsIdempotent(s: string)
    ensures StripTags(StripTags(s)) == StripTags(s)
  {
    StripTagsLeavesNoTag(s);
    StripTagsNoTag(StripTags(s));
  }

  /** A raw line as both converters clean it: stripped, tags removed,
      stripped again. */
  function CleanLine(raw: string): (r: string)
    ensures IsStripped(r)
    ensures forall c :: c in r ==> c in raw
    ensures r == [] <==> AllSpace(StripTags(Strip(raw)))
    ensures NoNewline(raw) ==> NoNewline(r)
  {
    StripParts(raw);
    StripParts(StripTags(Strip(raw)));
    Strip(StripTags(Strip(raw)))
  }

  /** A line with no tag left after stripping cleans to the stripped line. */
  lemma CleanLineNoTag(raw: string)
    requires NoTag(Strip(raw))
    ensures CleanLine(raw) == Strip(raw)
  {
    StripTagsNoTag(Strip(raw));
  }

  /** A non-empty string without leading or trailing whitespace: what a
      cleaned line must be to be kept. */
  predicate IsCleanText(s: string) {
    s != [] && IsStripped(s)
  }

  /** Lines both converters skip outright (server.py:354 and 441-445): blank
      after stripping, or a header/metadata line. */
  predicate IsHeaderOrBlank(line: string) {
    line == [] || StartsWith(line, "WEBVTT") || StartsWith(line, "Kind:")
    || StartsWith(line, "Language:") || StartsWith(line, "NOTE")
  }

  /** The SRT converter's cue-timing test: `'-->' in line and ':' in line`. */
  predicate IsTimingLine(line: string) {
    Contains(line, "-->") && ':' in line
  }
}
