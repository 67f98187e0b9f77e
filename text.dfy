/** String primitives the subtitle converters are built from: Python's
    str.strip, str.startswith/endswith, `in`, str.split, str.join,
    str.replace(old, ''), str.lower and str(int), plus the fixed regular
    expression character classes, each stated over an explicit ASCII set. */
module Text {

  /** A value that may be absent: Python's None or a value. */
  datatype Option<T> = None | Some(value: T)

  /** Python's str.isspace(), restricted to ASCII: tab, line feed, vertical
      tab, form feed, carriage return (9..13), the separators 0x1c..0x1f and
      the space (32). The same set stands for the regex class \s. */
  predicate IsSpace(c: char) {
    9 <= c as int <= 13 || 28 <= c as int <= 32
  }

  predicate IsDigit(c: char) {
    48 <= c as int <= 57
  }

  /** The regex class \w, restricted to ASCII. */
  predicate IsWordChar(c: char) {
    'a' <= c <= 'z' || 'A' <= c <= 'Z' || IsDigit(c) || c == '_'
  }

  /** The fixed character classes used by the converters' regular expressions. */
  datatype CharClass =
    | Word          // \w
    | Digit         // \d
    | NonSpace      // [^\s]
    | Space         // \s
    | SentenceEnd   // [.!?]
    | NotGt         // [^>]
    | IdChar        // [^&\n?#]
    | NotNewline    // .

  predicate InClass(c: char, cls: CharClass) {
    match cls
    case Word => IsWordChar(c)
    case Digit => IsDigit(c)
    case NonSpace => !IsSpace(c)
    case Space => IsSpace(c)
    case SentenceEnd => c == '.' || c == '!' || c == '?'
    case NotGt => c != '>'
    case IdChar => c != '&' && c != '\n' && c != '?' && c != '#'
    case NotNewline => c != '\n'
  }

  /** Length of the longest prefix of `s` made of `cls` characters: what a
      greedy `cls+` (or `cls*`) consumes at the start of `s`. */
  function Run(s: string, cls: CharClass): (n: nat)
    ensures n <= |s|
    ensures n == |s| || !InClass(s[n], cls)
  {
    if s != [] && InClass(s[0], cls) then 1 + Run(s[1..], cls) else 0
  }

  /** Every character of the run is in the class. */
  lemma {:induction false} RunInClass(s: string, cls: CharClass)
    ensures forall k :: 0 <= k < Run(s, cls) ==> InClass(s[k], cls)
    decreases |s|
  {
    if s != [] && InClass(s[0], cls) {
      RunInClass(s[1..], cls);
    }
  }

  /** Every character of `s` is in the class. */
  predicate AllIn(s: string, cls: CharClass) {
    forall k :: 0 <= k < |s| ==> InClass(s[k], cls)
  }

  /** A run is at least as long as any prefix made of class characters. */
  lemma {:induction false} RunAtLeast(s: string, cls: CharClass, l: nat)
    requires l <= |s|
    requires forall k :: 0 <= k < l ==> InClass(s[k], cls)
    ensures Run(s, cls) >= l
    decreases l
  {
    if l > 0 {
      assert InClass(s[0], cls);
      RunAtLeast(s[1..], cls, l - 1);
    }
  }

  /** A prefix of class characters followed by the end or by a character
      outside the class is exactly the run. */
  lemma RunExact(s: string, cls: CharClass, l: nat)
    requires l <= |s|
    requires forall k :: 0 <= k < l ==> InClass(s[k], cls)
    requires l == |s| || !InClass(s[l], cls)
    ensures Run(s, cls) == l
  {
    RunAtLeast(s, cls, l);
    RunInClass(s, cls);
  }

  /** A string made only of class characters is one whole run. */
  lemma {:induction false} RunWhole(s: string, cls: CharClass)
    requires forall k :: 0 <= k < |s| ==> InClass(s[k], cls)
    ensures Run(s, cls) == |s|
    decreases |s|
  {
    if s != [] {
      RunWhole(s[1..], cls);
    }
  }

  predicate AllSpace(s: string) {
    forall k :: 0 <= k < |s| ==> IsSpace(s[k])
  }

  /** No leading or trailing whitespace: what str.strip() leaves. */
  predicate IsStripped(s: string) {
    s == [] || (!IsSpace(s[0]) && !IsSpace(s[|s| - 1]))
  }

  /** Number of whitespace characters `s` ends with. */
  function TrailingSpace(s: string): (n: nat)
    decreases |s|
    ensures n <= |s|
    ensures n == |s| || !IsSpace(s[|s| - n - 1])
  {
    if s != [] && IsSpace(s[|s| - 1]) then 1 + TrailingSpace(s[..|s| - 1]) else 0
  }

  /** Every character of the trailing run is whitespace. */
  lemma {:induction false} TrailingSpaceAll(s: string)
    ensures forall k :: |s| - TrailingSpace(s) <= k < |s| ==> IsSpace(s[k])
    decreases |s|
  {
    if s != [] && IsSpace(s[|s| - 1]) {
      TrailingSpaceAll(s[..|s| - 1]);
    }
  }

  /** Where the text of `s` starts once leading whitespace is skipped. */
  function StripStart(s: string): nat {
    Run(s, Space)
  }

  /** Where the text of `s` ends once trailing whitespace is dropped. */
  function StripEnd(s: string): (e: nat)
    ensures StripStart(s) <= e <= |s|
  {
    |s| - TrailingSpace(s[StripStart(s)..])
  }

  /** str.strip(): `s` with its leading and trailing whitespace removed.
      The result is a stripped middle part of `s` between two runs of
      whitespace; StripUnique shows there is only one such part. */
  function Strip(s: string): (r: string)
    ensures IsStripped(r)
    ensures |r| <= |s|
    ensures IsStripped(s) ==> r == s
    ensures exists i, j :: 0 <= i <= j <= |s| && r == s[i..j] && AllSpace(s[..i]) && AllSpace(s[j..])
  {
    var t := s[StripStart(s)..];
    assert TrailingSpace(t) == |t| || !IsSpace(t[|t| - TrailingSpace(t) - 1]);
    RunInClass(s, Space);
    TrailingSpaceAll(t);
    assert AllSpace(s[StripEnd(s)..]) by {
      forall k | 0 <= k < |s| - StripEnd(s)
        ensures IsSpace(s[StripEnd(s)..][k])
      {
        assert s[StripEnd(s)..][k] == t[k + StripEnd(s) - StripStart(s)];
      }
    }
    s[StripStart(s)..StripEnd(s)]
  }

  /** A trailing block of whitespace after a non-whitespace character (or
      the start) is exactly what is counted. */
  lemma {:induction false} TrailingSpaceExact(t: string, l: nat)
    requires l <= |t|
    requires forall k :: |t| - l <= k < |t| ==> IsSpace(t[k])
    requires l == |t| || !IsSpace(t[|t| - l - 1])
    ensures TrailingSpace(t) == l
    decreases l
  {
    if l > 0 {
      var u := t[..|t| - 1];
      assert IsSpace(t[|t| - 1]);
      assert l - 1 == |u| || u[|u| - (l - 1) - 1] == t[|t| - l - 1];
      TrailingSpaceExact(u, l - 1);
    }
  }

  /** Whitespace, a stripped text, whitespace: stripping gives that text.
      With the decomposition Strip ensures, this fixes Strip(s) for every s. */
  lemma StripUnique(a: string, r: string, b: string)
    requires AllSpace(a) && AllSpace(b) && IsStripped(r)
    ensures Strip(a + r + b) == r
  {
    var s := a + r + b;
    if r == [] {
      forall k | 0 <= k < |s|
        ensures IsSpace(s[k])
      {
        if k < |a| {
          assert s[k] == a[k];
        } else {
          assert s[k] == b[k - |a|];
        }
      }
      StripParts(s);
    } else {
      assert s[|a|] == r[0];
      RunExact(s, Space, |a|);
      var t := s[|a|..];
      assert t == r + b;
      assert t[|t| - |b| - 1] == r[|r| - 1];
      TrailingSpaceExact(t, |b|);
      assert s[|a|..|s| - |b|] == r;
    }
  }

  /** Stripping leaves nothing exactly when the text is all whitespace, and
      keeps only characters of the text. */
  lemma StripParts(s: string)
    ensures Strip(s) == [] <==> AllSpace(s)
    ensures forall c :: c in Strip(s) ==> c in s
  {
    var a := StripStart(s);
    RunInClass(s, Space);
    if a < |s| {
      // s[a] is not whitespace and survives both ends of the strip.
      var t := s[a..];
      TrailingSpaceAll(t);
      assert t[0] == s[a];
      assert Strip(s) != [];
    }
  }


  predicate StartsWith(s: string, prefix: string) {
    |prefix| <= |s| && s[..|prefix|] == prefix
  }

  predicate EndsWith(s: string, suffix: string) {
    |suffix| <= |s| && s[|s| - |suffix|..] == suffix
  }

  /** Python's `t in s` for strings: `t` occurs in `s` at some position. */
  predicate Contains(s: string, t: string)
    decreases |s|
  {
    StartsWith(s, t) || (s != [] && Contains(s[1..], t))
  }

  /** `t` occurs in `s` starting at index `k`. */
  predicate OccursAt(s: string, t: string, k: int) {
    0 <= k <= |s| - |t| && s[k..k + |t|] == t
  }

  lemma {:induction false} ContainsAt(s: string, t: string)
    ensures Contains(s, t) <==> exists k :: OccursAt(s, t, k)
    decreases |s|
  {
    if s == [] {
      if StartsWith(s, t) {
        assert OccursAt(s, t, 0);
      }
      if k :| OccursAt(s, t, k) {
        assert k == 0 && StartsWith(s, t);
      }
    } else {
      ContainsAt(s[1..], t);
      if StartsWith(s, t) {
        assert OccursAt(s, t, 0);
      } else if Contains(s[1..], t) {
        var k :| OccursAt(s[1..], t, k);
        assert s[1..][k..k + |t|] == s[k + 1..k + 1 + |t|];
        assert OccursAt(s, t, k + 1);
      }
      if k :| OccursAt(s, t, k) {
        if k == 0 {
          assert StartsWith(s, t);
        } else {
          assert s[1..][k - 1..k - 1 + |t|] == s[k..k + |t|];
          assert OccursAt(s[1..], t, k - 1);
        }
      }
    }
  }

  /** sep.join(xs). */
  function Join(sep: string, xs: seq<string>): string
    decreases |xs|
  {
    if xs == [] then ""
    else if |xs| == 1 then xs[0]
    else xs[0] + sep + Join(sep, xs[1..])
  }

  lemma {:induction false} JoinChars(sep: string, xs: seq<string>, c: char)
    requires c !in sep
    requires forall k :: 0 <= k < |xs| ==> c !in xs[k]
    ensures c !in Join(sep, xs)
  {
    if |xs| > 1 {
      JoinChars(sep, xs[1..], c);
    }
  }

  /** `f` applied to xs[lo], ..., xs[hi - 1], the results concatenated. */
  function FlatMapRange<T, U>(f: T -> seq<U>, xs: seq<T>, lo: nat, hi: nat): seq<U>
    requires lo <= hi <= |xs|
    decreases hi - lo
  {
    if lo == hi then [] else f(xs[lo]) + FlatMapRange(f, xs, lo + 1, hi)
  }

  /** Taking one more element adds its image at the end. */
  lemma {:induction false} FlatMapRangeAppend<T, U>(f: T -> seq<U>, xs: seq<T>, lo: nat, hi: nat)
    requires lo <= hi < |xs|
    ensures FlatMapRange(f, xs, lo, hi + 1) == FlatMapRange(f, xs, lo, hi) + f(xs[hi])
    decreases hi - lo
  {
    if lo < hi {
      FlatMapRangeAppend(f, xs, lo + 1, hi);
      assert f(xs[lo]) + (FlatMapRange(f, xs, lo + 1, hi) + f(xs[hi]))
          == (f(xs[lo]) + FlatMapRange(f, xs, lo + 1, hi)) + f(xs[hi]);
    }
  }

  /** When `f` gives at most one element, the result is no longer than the range. */
  lemma {:induction false} FlatMapRangeLength<T, U>(f: T -> seq<U>, xs: seq<T>, lo: nat, hi: nat)
    requires lo <= hi <= |xs|
    requires forall x :: |f(x)| <= 1
    ensures |FlatMapRange(f, xs, lo, hi)| <= hi - lo
    decreases hi - lo
  {
    if lo < hi {
      FlatMapRangeLength(f, xs, lo + 1, hi);
    }
  }

  /** An element is in the flat-mapped range exactly when it is in the
      image of some element of the range. */
  lemma {:induction false} FlatMapRangeMembers<T, U>(f: T -> seq<U>, xs: seq<T>, lo: nat, hi: nat, e: U)
    requires lo <= hi <= |xs|
    ensures e in FlatMapRange(f, xs, lo, hi) <==> exists j :: lo <= j < hi && e in f(xs[j])
    decreases hi - lo
  {
    if lo < hi {
      var rest := FlatMapRange(f, xs, lo + 1, hi);
      assert FlatMapRange(f, xs, lo, hi) == f(xs[lo]) + rest;
      FlatMapRangeMembers(f, xs, lo + 1, hi, e);
      if e in f(xs[lo]) {
        assert lo <= lo < hi && e in f(xs[lo]);
      }
      if j :| lo <= j < hi && e in f(xs[j]) {
        if j > lo {
          assert e in rest;
        }
      }
    }
  }

  /** Every element of `xs` satisfies `p`. */
  predicate All<T>(p: T -> bool, xs: seq<T>) {
    forall k :: 0 <= k < |xs| ==> p(xs[k])
  }

  lemma AllConcat<T>(p: T -> bool, xs: seq<T>, ys: seq<T>)
    requires All(p, xs) && All(p, ys)
    ensures All(p, xs + ys)
  {
    forall k | 0 <= k < |xs + ys|
      ensures p((xs + ys)[k])
    {
      if k >= |xs| {
        assert (xs + ys)[k] == ys[k - |xs|];
      }
    }
  }

  /** When `f` maps every `p`-element to `q`-elements only, flat-mapping
      `f` over `p`-elements gives `q`-elements only. */
  lemma {:induction false} FlatMapAll<T, U>(f: T -> seq<U>, p: T -> bool, q: U -> bool, xs: seq<T>, lo: nat, hi: nat)
    requires lo <= hi <= |xs|
    requires All(p, xs)
    requires forall x :: p(x) ==> All(q, f(x))
    ensures All(q, FlatMapRange(f, xs, lo, hi))
    decreases hi - lo
  {
    if lo < hi {
      FlatMapAll(f, p, q, xs, lo + 1, hi);
      assert p(xs[lo]);
      AllConcat(q, f(xs[lo]), FlatMapRange(f, xs, lo + 1, hi));
    }
  }

  /** Every element of `xs` is an element of `ys`, so what holds of all of
      `ys` holds of all of `xs`. */
  lemma AllOfMembers<T>(p: T -> bool, xs: seq<T>, ys: seq<T>)
    requires All(p, ys)
    requires forall e :: e in xs ==> e in ys
    ensures All(p, xs)
  {
    forall k | 0 <= k < |xs|
      ensures p(xs[k])
    {
      assert xs[k] in ys;
    }
  }

  lemma AllSlice<T>(p: T -> bool, xs: seq<T>, a: nat, b: nat)
    requires a <= b <= |xs|
    requires All(p, xs)
    ensures All(p, xs[a..b])
  {
    forall k | 0 <= k < b - a
      ensures p(xs[a..b][k])
    {
      assert xs[a..b][k] == xs[a + k];
    }
  }

  /** A string without a line break. */
  predicate NoNewline(s: string) {
    '\n' !in s
  }

  lemma JoinLength(sep: string, xs: seq<string>)
    requires xs != []
    ensures |Join(sep, xs)| >= |xs[0]|
  {
  }

  lemma {:induction false} JoinEmpty(sep: string, xs: seq<string>)
    requires forall k :: 0 <= k < |xs| ==> xs[k] != []
    ensures Join(sep, xs) == [] <==> xs == []
  {
    if |xs| > 1 {
      assert |Join(sep, xs)| >= |xs[0]| > 0;
    }
  }

  /** Splitting the rest of a string on `c` when `cur` has been read since
      the last separator. */
  function SplitFrom(s: string, c: char, cur: string): (r: seq<string>)
    decreases |s|
    ensures |r| >= 1
  {
    if s == [] then [cur]
    else if s[0] == c then [cur] + SplitFrom(s[1..], c, [])
    else SplitFrom(s[1..], c, cur + [s[0]])
  }

  /** str.split(c) with an explicit one-character separator: the pieces of
      `s` between occurrences of `c` (an empty string gives [""]). */
  function Split(s: string, c: char): seq<string> {
    SplitFrom(s, c, [])
  }

  lemma {:induction false} SplitFromNoSep(s: string, c: char, cur: string)
    requires c !in cur
    ensures forall k :: 0 <= k < |SplitFrom(s, c, cur)| ==> c !in SplitFrom(s, c, cur)[k]
    decreases |s|
  {
    if s == [] {
    } else if s[0] == c {
      SplitFromNoSep(s[1..], c, []);
    } else {
      SplitFromNoSep(s[1..], c, cur + [s[0]]);
    }
  }

  lemma {:induction false} SplitFromCount(s: string, c: char, cur: string)
    ensures |SplitFrom(s, c, cur)| == multiset(s)[c] + 1
    decreases |s|
  {
    if s != [] {
      assert s == [s[0]] + s[1..];
      assert multiset(s) == multiset([s[0]]) + multiset(s[1..]);
      if s[0] == c {
        SplitFromCount(s[1..], c, []);
      } else {
        SplitFromCount(s[1..], c, cur + [s[0]]);
      }
    }
  }

  lemma {:induction false} JoinSplitFrom(s: string, c: char, cur: string)
    ensures Join([c], SplitFrom(s, c, cur)) == cur + s
    decreases |s|
  {
    if s == [] {
    } else if s[0] == c {
      JoinSplitFrom(s[1..], c, []);
      assert s == [c] + s[1..];
    } else {
      JoinSplitFrom(s[1..], c, cur + [s[0]]);
      assert cur + [s[0]] + s[1..] == cur + s;
    }
  }

  lemma {:induction false} SplitFromAppend(a: string, b: string, c: char, cur: string)
    requires c !in a
    ensures SplitFrom(a + b, c, cur) == SplitFrom(b, c, cur + a)
    decreases |a|
  {
    if a != [] {
      assert (a + b)[1..] == a[1..] + b;
      SplitFromAppend(a[1..], b, c, cur + [a[0]]);
      assert cur + [a[0]] + a[1..] == cur + a;
    } else {
      assert a + b == b;
      assert cur + a == cur;
    }
  }

  lemma {:induction false} SplitJoinFrom(xs: seq<string>, c: char, cur: string)
    requires xs != []
    requires forall k :: 0 <= k < |xs| ==> c !in xs[k]
    ensures SplitFrom(Join([c], xs), c, cur) == [cur + xs[0]] + xs[1..]
    decreases |xs|
  {
    if |xs| == 1 {
      SplitFromAppend(xs[0], [], c, cur);
      assert xs[0] + [] == xs[0];
    } else {
      var rest := Join([c], xs[1..]);
      assert Join([c], xs) == xs[0] + ([c] + rest);
      SplitFromAppend(xs[0], [c] + rest, c, cur);
      assert ([c] + rest)[1..] == rest;
      SplitJoinFrom(xs[1..], c, []);
      assert [] + xs[1..][0] == xs[1];
      assert [xs[1]] + xs[2..] == xs[1..];
    }
  }

  /** Splitting on `c` and joining with `c` give back the string. */
  lemma JoinSplit(s: string, c: char)
    ensures Join([c], Split(s, c)) == s
    ensures forall k :: 0 <= k < |Split(s, c)| ==> c !in Split(s, c)[k]
    ensures |Split(s, c)| == multiset(s)[c] + 1
  {
    JoinSplitFrom(s, c, []);
    SplitFromNoSep(s, c, []);
    SplitFromCount(s, c, []);
  }

  /** Joining pieces that do not contain `c` with `c` and splitting on `c`
      give back the pieces. */
  lemma SplitJoin(xs: seq<string>, c: char)
    requires xs != []
    requires forall k :: 0 <= k < |xs| ==> c !in xs[k]
    ensures Split(Join([c], xs), c) == xs
  {
    SplitJoinFrom(xs, c, []);
    assert [] + xs[0] == xs[0];
    assert [xs[0]] + xs[1..] == xs;
  }

  /** s.replace(t, ''): every occurrence of `t`, found left to right without
      overlap, removed. Python leaves `s` unchanged when `t` is empty. */
  function RemoveAll(s: string, t: string): (r: string)
    decreases |s|
  {
    if t == [] || s == [] then s
    else if StartsWith(s, t) then RemoveAll(s[|t|..], t)
    else [s[0]] + RemoveAll(s[1..], t)
  }

  /** s.rstrip(c) for one character `c`. */
  function RStripChar(s: string, c: char): (r: string)
    ensures |r| <= |s| && r == s[..|r|]
    ensures forall k :: |r| <= k < |s| ==> s[k] == c
    ensures r == [] || r[|r| - 1] != c
  {
    if s != [] && s[|s| - 1] == c then RStripChar(s[..|s| - 1], c) else s
  }

  /** The lower-case form of an ASCII capital; any other character is kept. */
  function LowerChar(c: char): (r: char)
    ensures !('A' <= r <= 'Z')
    ensures 'A' <= c <= 'Z' ==> r as int == c as int + 32
    ensures !('A' <= c <= 'Z') ==> r == c
  {
    if 'A' <= c <= 'Z' then (c as int + 32) as char else c
  }

  /** str.lower(), restricted to the ASCII letters. */
  function Lower(s: string): (r: string)
    ensures |r| == |s|
    ensures forall k :: 0 <= k < |s| ==> r[k] == LowerChar(s[k])
  {
    if s == [] then [] else [LowerChar(s[0])] + Lower(s[1..])
  }

  function DigitChar(d: nat): char
    requires d < 10
  {
    (48 + d) as char
  }

  /** str(n) for a natural number: its decimal digits, most significant first. */
  function NatToString(n: nat): (r: string)
    ensures r != []
    ensures forall k :: 0 <= k < |r| ==> IsDigit(r[k])
    ensures r[0] != '0' || n == 0
  {
    if n < 10 then [DigitChar(n)] else NatToString(n / 10) + [DigitChar(n % 10)]
  }

  /** The value of a string of decimal digits. */
  function DecimalValue(s: string): nat
    requires forall k :: 0 <= k < |s| ==> IsDigit(s[k])
  {
    if s == [] then 0
    else
      assert IsDigit(s[|s| - 1]);
      10 * DecimalValue(s[..|s| - 1]) + (s[|s| - 1] as int - 48)
  }

  /** Reading back the decimal rendering gives the number: str(n) is injective. */
  lemma {:induction false} DecimalRoundTrip(n: nat)
    ensures DecimalValue(NatToString(n)) == n
  {
    if n >= 10 {
      var s := NatToString(n);
      assert s[..|s| - 1] == NatToString(n / 10);
      DecimalRoundTrip(n / 10);
    }
  }
}
