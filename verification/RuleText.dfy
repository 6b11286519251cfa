/** Texts of rules put together from their pieces, and the way parsing (dnsfilter/src/rule_utils.cpp) takes them apart. */
module RuleText {
  import opened Text
  import opened RuleSyntax

  // ----- words between delimiters -----------------------------------------------------------------------------

  /** A word without spaces and delimiters. */
  predicate IsToken(s: string, delims: string) {
    s != "" && forall i :: 0 <= i < |s| ==> !IsSpace(s[i]) && s[i] !in delims
  }

  function JoinWords(words: seq<string>, sep: char): string
    requires words != []
  {
    if |words| == 1 then words[0] else words[0] + [sep] + JoinWords(words[1..], sep)
  }

  lemma SplitWithoutDelimiters(s: string, delims: string)
    requires s != "" && Trimmed(s) && forall i :: 0 <= i < |s| ==> s[i] !in delims
    ensures SplitByAnyOf(s, delims) == [s]
  {
    assert FindFirstOf(s, delims, 0) == |s|;
    assert s[0..|s|] == s;
    TrimTrims(s);
  }

  /** `t` has `s` behind its first `k` characters. */
  predicate IsBehind(t: string, k: nat, s: string) {
    k <= |t| && t[k..] == s
  }

  lemma BehindAt(t: string, k: nat, s: string, i: nat, n: nat)
    requires IsBehind(t, k, s) && i <= n <= |s|
    ensures |t| == k + |s| && t[k + i..k + n] == s[i..n] && (i < |s| ==> t[k + i] == s[i])
  {
    forall j | 0 <= j < n - i
      ensures t[k + i..k + n][j] == s[i..n][j]
    {
      assert t[k..][i + j] == s[i + j];
    }
  }

  lemma {:induction false} FindBehind(t: string, k: nat, s: string, chars: string, i: nat)
    requires IsBehind(t, k, s) && i <= |s|
    ensures FindFirstOf(t, chars, k + i) == k + FindFirstOf(s, chars, i)
    decreases |s| - i
  {
    BehindAt(t, k, s, i, i);
    if i < |s| {
      FindBehind(t, k, s, chars, i + 1);
    }
  }

  lemma {:induction false} SplitBehindFrom(f: string -> seq<string>, t: string, k: nat, s: string, delims: string, i: nat)
    requires IsBehind(t, k, s) && i <= |s|
    ensures |t| == k + |s| && SplitWith(f, t, delims, k + i) == SplitWith(f, s, delims, i)
    decreases |s| - i
  {
    var end := FindFirstOf(s, delims, i);
    BehindAt(t, k, s, i, end);
    FindBehind(t, k, s, delims, i);
    if end < |s| {
      SplitBehindFrom(f, t, k, s, delims, end + 1);
    }
  }

  lemma SplitBehind(t: string, k: nat, s: string, delims: string)
    requires IsBehind(t, k, s)
    ensures SplitFrom(t, delims, k) == SplitFrom(s, delims, 0)
  {
    SplitBehindFrom(TrimmedPiece, t, k, s, delims, 0);
  }

  lemma FirstWordEnds(w: string, sep: char, rest: string, delims: string)
    requires IsToken(w, delims) && sep in delims
    ensures FindFirstOf(w + [sep] + rest, delims, 0) == |w|
  {
    var s := w + [sep] + rest;
    assert s[|w|] == sep && forall i :: 0 <= i < |w| ==> s[i] == w[i];
  }

  lemma TokenIsTrimmed(w: string, delims: string)
    requires IsToken(w, delims)
    ensures Trimmed(w) && Trim(w) == w
  {
    TrimTrims(w);
  }

  lemma SplitFirst(w: string, sep: char, rest: string, delims: string)
    requires IsToken(w, delims) && sep in delims
    ensures SplitFrom(w + [sep] + rest, delims, 0) == [w] + SplitFrom(rest, delims, 0)
  {
    var s := w + [sep] + rest;
    FirstWordEnds(w, sep, rest, delims);
    TokenIsTrimmed(w, delims);
    assert s[0..|w|] == w;
    SplitBehind(s, |w| + 1, rest, delims);
  }

  ghost predicate AreTokens(words: seq<string>, delims: string) {
    forall i :: 0 <= i < |words| ==> IsToken(words[i], delims)
  }

  lemma {:induction false} SplitJoinedFrom(words: seq<string>, sep: char, delims: string)
    requires words != [] && AreTokens(words, delims) && sep in delims
    ensures JoinWords(words, sep) != "" && SplitFrom(JoinWords(words, sep), delims, 0) == words
    decreases |words|
  {
    if |words| == 1 {
      OneWord(words, delims);
    } else {
      SplitJoinedFrom(words[1..], sep, delims);
      SplitFirst(words[0], sep, JoinWords(words[1..], sep), delims);
      HeadAndTail(words);
    }
  }

  lemma HeadAndTail(words: seq<string>)
    requires words != []
    ensures words == [words[0]] + words[1..]
  {
  }

  lemma OneWord(words: seq<string>, delims: string)
    requires |words| == 1 && IsToken(words[0], delims)
    ensures SplitFrom(words[0], delims, 0) == words
  {
    SplitWithoutDelimiters(words[0], delims);
    assert words == [words[0]];
  }

  /** Words that were joined by a delimiter are split again. */
  lemma SplitJoined(words: seq<string>, sep: char, delims: string)
    requires words != [] && AreTokens(words, delims) && sep in delims
    ensures SplitByAnyOf(JoinWords(words, sep), delims) == words
  {
    SplitJoinedFrom(words, sep, delims);
  }

  lemma {:induction false} JoinedChars(words: seq<string>, sep: char, c: char)
    requires words != [] && c != sep && forall i :: 0 <= i < |words| ==> c !in words[i]
    ensures c !in JoinWords(words, sep)
    decreases |words|
  {
    if |words| > 1 {
      JoinedChars(words[1..], sep, c);
    }
  }

  lemma {:induction false} JoinedEnds(words: seq<string>, sep: char)
    requires words != [] && forall i :: 0 <= i < |words| ==> words[i] != ""
    ensures var s, last := JoinWords(words, sep), words[|words| - 1];
            s != "" && s[0] == words[0][0] && s[|s| - 1] == last[|last| - 1]
    decreases |words|
  {
    if |words| > 1 {
      JoinedEnds(words[1..], sep);
    }
  }

  // ----- occurrences ------------------------------------------------------------------------------------------

  lemma NoOccurrence(s: string, c: char)
    requires c !in s
    ensures RFind(s, [c]).None?
  {
    forall i | 0 <= i < |s|
      ensures !OccursAt(s, [c], i)
    {
      assert s[i..i + 1] == [s[i]];
    }
  }

  lemma NotAtFirst(s: string, prefix: string, i: nat)
    requires i < |prefix| && (i >= |s| || s[i] != prefix[i])
    ensures !StartsWith(s, prefix)
  {
    if |s| >= |prefix| {
      assert s[..|prefix|][i] == s[i];
    }
  }

  /** A string is split where it was joined, at the last `$`. */
  lemma LastDollar(x: string, mods: string)
    requires '$' !in mods
    ensures RSplit2(x + "$" + mods, '$') == (x, mods)
  {
    var s := x + "$" + mods;
    assert s[|x|..|x| + 1] == "$";
    assert OccursAt(s, "$", |x|);
    forall i | |x| < i
      ensures !OccursAt(s, "$", i)
    {
      if i < |s| {
        assert s[i..i + 1] == [s[i]] && s[i] == mods[i - |x| - 1];
      }
    }
    var r := RFind(s, "$").value;
    assert r == |x|;
    assert s[..r] == x && s[r + 1..] == mods;
  }

  // ----- what stands around a pattern -------------------------------------------------------------------------

  /** The characters of patterns: letters, digits, and `.`, `-`, `_`, `*`. */
  predicate IsPatternText(t: string) {
    t != "" && forall i :: 0 <= i < |t| ==>
      || 'a' <= t[i] <= 'z' || 'A' <= t[i] <= 'Z' || '0' <= t[i] <= '9'
      || t[i] == '.' || t[i] == '-' || t[i] == '_' || t[i] == '*'
  }

  predicate IsAnchor(s: string) { s == "" || s == "|" || s == "||" }

  predicate IsScheme(s: string) {
    || s == "https://" || s == "http://" || s == "http*://" || s == "ws://" || s == "wss://" || s == "ws*://"
    || s == "://" || s == "//"
  }

  predicate IsMark(c: char) { c == '|' || c == '^' || c == '/' }

  predicate AreMarks(s: string) {
    && (forall i :: 0 <= i < |s| ==> IsMark(s[i]))
    && (forall i, j :: 0 <= i < j < |s| ==> s[i] != s[j])
  }

  /** A colon and up to five digits, or nothing. */
  predicate IsPort(s: string) {
    s == "" || (2 <= |s| <= 6 && s[0] == ':' && forall i :: 1 <= i < |s| ==> '0' <= s[i] <= '9')
  }

  /** What may follow a pattern: a port, and then each of the marks at most once, in any order. */
  ghost predicate IsStop(s: string) {
    exists k :: 0 <= k <= |s| && IsPort(s[..k]) && AreMarks(s[k..])
  }

  lemma OneMark(s: string)
    requires s == "" || (|s| == 1 && IsMark(s[0]))
    ensures IsStop(s)
  {
    assert s[..0] == "" && s[0..] == s;
  }

  lemma AnchorIsRemoved(anchor: string, rest: string)
    requires IsAnchor(anchor) && rest != "" && rest[0] != '|'
    ensures RemoveSpecialPrefix(anchor + rest) == (rest, Mode(anchor == "|", false, anchor == "||"))
  {
    var s := anchor + rest;
    if anchor == "||" {
      assert s[..2] == "||" && s[2..] == rest;
    } else if anchor == "|" {
      assert s[1] == rest[0];
      NotAtFirst(s, "||", 1);
      assert s[1..] == rest;
    } else {
      assert s == rest;
      NotAtFirst(s, "||", 0);
    }
  }

  lemma {:induction false} PrefixIsSkipped(s: string, prefixes: seq<string>, k: nat)
    requires k < |prefixes| && StartsWith(s, prefixes[k]) && forall j :: 0 <= j < k ==> !StartsWith(s, prefixes[j])
    ensures RemoveSkippablePrefix(s, prefixes) == (s[|prefixes[k]|..], true)
    decreases |prefixes|
  {
    if k > 0 {
      assert !StartsWith(s, prefixes[0]);
      PrefixIsSkipped(s, prefixes[1..], k - 1);
    }
  }

  lemma {:induction false} NothingIsSkipped(s: string, prefixes: seq<string>)
    requires forall j :: 0 <= j < |prefixes| ==> !StartsWith(s, prefixes[j])
    ensures RemoveSkippablePrefix(s, prefixes) == (s, false)
    decreases |prefixes|
  {
    if prefixes != [] {
      assert !StartsWith(s, prefixes[0]);
      NothingIsSkipped(s, prefixes[1..]);
    }
  }

  /** The place of a scheme in the list, and where it differs from those before it. */
  lemma SchemePlace(scheme: string, rest: string) returns (k: nat)
    requires IsScheme(scheme)
    ensures k < |SKIPPABLE_PREFIXES| && SKIPPABLE_PREFIXES[k] == scheme
    ensures forall j :: 0 <= j < k ==> !StartsWith(scheme + rest, SKIPPABLE_PREFIXES[j])
  {
    var s := scheme + rest;
    if scheme == "https://" {
      k := 0;
    } else if scheme == "http://" {
      k := 1;
      NotAtFirst(s, "https://", 4);
    } else if scheme == "http*://" {
      k := 2;
      NotAtFirst(s, "https://", 4);
      NotAtFirst(s, "http://", 4);
    } else {
      k := OtherSchemePlace(scheme, rest);
    }
  }

  lemma OtherSchemePlace(scheme: string, rest: string) returns (k: nat)
    requires IsScheme(scheme) && scheme[0] != 'h'
    ensures k < |SKIPPABLE_PREFIXES| && SKIPPABLE_PREFIXES[k] == scheme
    ensures forall j :: 0 <= j < k ==> !StartsWith(scheme + rest, SKIPPABLE_PREFIXES[j])
  {
    var s := scheme + rest;
    NotAtFirst(s, "https://", 0);
    NotAtFirst(s, "http://", 0);
    NotAtFirst(s, "http*://", 0);
    if scheme == "ws://" {
      k := 3;
    } else if scheme == "wss://" {
      k := 4;
      NotAtFirst(s, "ws://", 2);
    } else if scheme == "ws*://" {
      k := 5;
      NotAtFirst(s, "ws://", 2);
      NotAtFirst(s, "wss://", 2);
    } else {
      NotAtFirst(s, "ws://", 0);
      NotAtFirst(s, "wss://", 0);
      NotAtFirst(s, "ws*://", 0);
      k := if scheme == "://" then 6 else 7;
      if scheme == "//" {
        NotAtFirst(s, "://", 0);
      }
    }
  }

  lemma SchemeIsSkipped(scheme: string, rest: string)
    requires IsScheme(scheme)
    ensures RemoveSkippablePrefix(scheme + rest, SKIPPABLE_PREFIXES) == (rest, true)
  {
    var k := SchemePlace(scheme, rest);
    assert (scheme + rest)[..|scheme|] == scheme && (scheme + rest)[|scheme|..] == rest;
    PrefixIsSkipped(scheme + rest, SKIPPABLE_PREFIXES, k);
  }

  predicate IsSchemeEnd(s: string, i: nat) {
    i + 1 < |s| && s[i] == ':' && s[i + 1] == '/'
  }

  /** Every scheme has a character at this place that no pattern and no stop has there. */
  lemma NoSchemeInPattern(s: string)
    requires (forall i: nat :: !IsSchemeEnd(s, i)) && (s == "" || s[0] != '/')
    ensures RemoveSkippablePrefix(s, SKIPPABLE_PREFIXES) == (s, false)
  {
    NoSchemeAt(s, "https://", 5);
    NoSchemeAt(s, "http://", 4);
    NoSchemeAt(s, "http*://", 5);
    NoSchemeAt(s, "ws://", 2);
    NoSchemeAt(s, "wss://", 3);
    NoSchemeAt(s, "ws*://", 3);
    NoSchemeAt(s, "://", 0);
    NotAtFirst(s, "//", 0);
    NothingIsSkipped(s, SKIPPABLE_PREFIXES);
  }

  lemma NoSchemeAt(s: string, scheme: string, i: nat)
    requires IsSchemeEnd(scheme, i) && !IsSchemeEnd(s, i)
    ensures !StartsWith(s, scheme)
  {
    NotAtFirst(s, scheme, if i < |s| && s[i] == ':' then i + 1 else i);
  }

  // Marks at the end, each once, in any order

  lemma {:induction false} MarksAreRemoved(t: string, marks: string, suffixes: seq<char>)
    requires t != "" && !IsMark(t[|t| - 1]) && AreMarks(marks)
    requires forall i :: 0 <= i < |suffixes| ==> IsMark(suffixes[i])
    requires forall i :: 0 <= i < |marks| ==> marks[i] in suffixes
    ensures RemoveSpecialSuffixes(t + marks, suffixes) == (t, marks != "")
    decreases |marks|
  {
    if marks == "" {
      assert t + marks == t;
      assert t[|t| - 1] !in suffixes;
    } else {
      var s, n := t + marks, |marks| - 1;
      assert s[|s| - 1] == marks[n] && s[..|s| - 1] == t + marks[..n];
      var fewer := OneMarkLess(marks, suffixes);
      MarksAreRemoved(t, marks[..n], fewer);
      MarkIsRemoved(s, suffixes, fewer);
    }
  }

  lemma MarkIsRemoved(s: string, suffixes: seq<char>, fewer: seq<char>)
    requires s != "" && s[|s| - 1] in suffixes
    requires var place := Find(suffixes, [s[|s| - 1]], 0);
             place.Some? && fewer == suffixes[..place.value] + suffixes[place.value + 1..]
    ensures RemoveSpecialSuffixes(s, suffixes) == (RemoveSpecialSuffixes(s[..|s| - 1], fewer).0, true)
  {
  }

  lemma OneMarkLess(marks: string, suffixes: seq<char>) returns (fewer: seq<char>)
    requires marks != "" && AreMarks(marks)
    requires forall i :: 0 <= i < |suffixes| ==> IsMark(suffixes[i])
    requires forall i :: 0 <= i < |marks| ==> marks[i] in suffixes
    ensures var place := Find(suffixes, [marks[|marks| - 1]], 0);
            place.Some? && fewer == suffixes[..place.value] + suffixes[place.value + 1..]
    ensures forall i :: 0 <= i < |fewer| ==> IsMark(fewer[i])
    ensures forall i :: 0 <= i < |marks| - 1 ==> marks[i] in fewer
  {
    var n := |marks| - 1;
    assert marks[n] in suffixes;
    var k :| 0 <= k < |suffixes| && suffixes[k] == marks[n];
    assert suffixes[k..k + 1] == [marks[n]] && OccursAt(suffixes, [marks[n]], k);
    var place := Find(suffixes, [marks[n]], 0).value;
    assert suffixes[place..place + 1][0] == marks[n];
    fewer := suffixes[..place] + suffixes[place + 1..];
    forall i | 0 <= i < n
      ensures marks[i] in fewer
    {
      assert marks[i] in suffixes;
      var j :| 0 <= j < |suffixes| && suffixes[j] == marks[i];
      assert fewer[if j < place then j else j - 1] == marks[i];
    }
  }

  lemma NoPort(t: string)
    requires IsPatternText(t)
    ensures RemovePort(t) == (t, Mode(false, false, false))
  {
    NoOccurrence(t, ':');
  }

  lemma PortIsRemoved(t: string, port: string)
    requires IsPatternText(t) && IsPort(port) && port != ""
    ensures RemovePort(t + port) == (t, Mode(false, true, false))
  {
    var s := t + port;
    forall i | 0 <= i < |s|
      ensures OccursAt(s, ":", i) <==> i == |t|
    {
      assert s[i..i + 1] == [s[i]];
    }
    assert OccursAt(s, ":", |t|);
    assert Find(s, ":", 0) == Some(|t|) && RFind(s, ":") == Some(|t|);
    assert s[..|t|] == t && s[|t| + 1..] == port[1..];
    assert forall i :: 0 <= i < |port[1..]| ==> port[1..][i] == port[i + 1];
  }

  lemma StopParts(t: string, stop: string) returns (port: string, marks: string)
    requires IsStop(stop)
    ensures IsPort(port) && AreMarks(marks) && t + stop == (t + port) + marks
    ensures stop != "" <==> port != "" || marks != ""
  {
    var k :| 0 <= k <= |stop| && IsPort(stop[..k]) && AreMarks(stop[k..]);
    port, marks := stop[..k], stop[k..];
    assert stop == port + marks;
  }

  lemma PortAndMarks(t: string, port: string, marks: string)
    requires IsPatternText(t) && IsPort(port) && AreMarks(marks)
    ensures RemoveSpecialSuffixes((t + port) + marks, SPECIAL_SUFFIXES) == (t + port, marks != "")
    ensures RemovePort(t + port) == (t, Mode(false, port != "", false))
  {
    MarksAreRemoved(t + port, marks, SPECIAL_SUFFIXES);
    if port == "" {
      assert t + port == t;
      NoPort(t);
    } else {
      PortIsRemoved(t, port);
    }
  }

  lemma StopChars(stop: string)
    requires IsStop(stop)
    ensures forall i :: 0 <= i < |stop| ==> IsMark(stop[i]) || stop[i] == ':' || '0' <= stop[i] <= '9'
    ensures stop != "" ==> IsMark(stop[0]) || stop[0] == ':'
    ensures forall i: nat :: !IsSchemeEnd(stop, i)
  {
    var k :| 0 <= k <= |stop| && IsPort(stop[..k]) && AreMarks(stop[k..]);
    forall i | 0 <= i < |stop|
      ensures if i < k then stop[i] == stop[..k][i] else IsMark(stop[i])
    {
      assert i >= k ==> stop[i] == stop[k..][i - k];
    }
    assert k > 0 ==> stop[1] == stop[..k][1];
  }

  /** A pattern between its anchor, a scheme and a stop. */
  function Body(anchor: string, scheme: string, t: string, stop: string): string {
    anchor + (scheme + (t + stop))
  }

  ghost predicate IsBody(anchor: string, scheme: string, t: string, stop: string) {
    && IsAnchor(anchor) && (scheme == "" || IsScheme(scheme)) && IsPatternText(t) && IsStop(stop)
    && !(anchor == "" && scheme == "//" && stop != "" && stop[|stop| - 1] == '/')
  }

  lemma PatternHasNoScheme(t: string, stop: string)
    requires IsPatternText(t) && IsStop(stop)
    ensures forall i: nat :: !IsSchemeEnd(t + stop, i)
  {
    StopChars(stop);
    forall i: nat
      ensures !IsSchemeEnd(t + stop, i)
    {
      assert i < |t| ==> t[i] != ':';
      assert i >= |t| ==> !IsSchemeEnd(stop, i - |t|);
    }
  }

  lemma SchemeAndPattern(scheme: string, t: string, stop: string)
    requires (scheme == "" || IsScheme(scheme)) && IsPatternText(t) && IsStop(stop)
    ensures var s := scheme + (t + stop); s != "" && s[0] != '|'
    ensures RemoveSkippablePrefix(scheme + (t + stop), SKIPPABLE_PREFIXES) == (t + stop, scheme != "")
  {
    if scheme == "" {
      assert scheme + (t + stop) == t + stop;
      PatternHasNoScheme(t, stop);
      NoSchemeInPattern(t + stop);
    } else {
      SchemeIsSkipped(scheme, t + stop);
    }
  }

  lemma BodyIsNoRegex(anchor: string, scheme: string, t: string, stop: string)
    requires IsBody(anchor, scheme, t, stop)
    ensures !CheckRegex(Body(anchor, scheme, t, stop))
  {
    var s := Body(anchor, scheme, t, stop);
    if anchor != "" {
      assert s[0] == '|';
    } else if scheme != "" {
      assert s[0] == scheme[0];
      assert s[|s| - 1] == if stop == "" then t[|t| - 1] else stop[|stop| - 1];
    } else {
      assert s[0] == t[0];
    }
  }

  /** What is read from a pattern: a bar asserts the start of the line, two bars or a scheme that of a domain, and a
      port or any of the marks behind it the end of the line. */
  lemma BodyInfo(anchor: string, scheme: string, t: string, stop: string)
    requires IsBody(anchor, scheme, t, stop)
    ensures ExtractMatchInfo(Body(anchor, scheme, t, stop)) ==
            MatchInfo(t, false, Mode(anchor == "|", stop != "", anchor == "||" || (scheme != "" && anchor != "|")))
  {
    BodyIsNoRegex(anchor, scheme, t, stop);
    SchemeAndPattern(scheme, t, stop);
    AnchorIsRemoved(anchor, scheme + (t + stop));
    var port, marks := StopParts(t, stop);
    PortAndMarks(t, port, marks);
  }

  // ----- modifiers --------------------------------------------------------------------------------------------

  /** Modifiers are known words, none of them twice, and none that is set already. */
  ghost predicate GoodModifiers(words: seq<string>, props: Props) {
    && (forall i :: 0 <= i < |words| ==> words[i] == "important" || words[i] == "badfilter")
    && (forall i, j :: 0 <= i < j < |words| ==> words[i] != words[j])
    && ("important" in words ==> !props.important) && ("badfilter" in words ==> !props.badfilter)
  }

  /** They are accepted exactly then, and set what they say. */
  lemma {:induction false} ModifiersMeaning(words: seq<string>, props: Props)
    ensures ExtractModifiers(words, props).Some? <==> GoodModifiers(words, props)
    ensures ExtractModifiers(words, props).Some? ==>
              ExtractModifiers(words, props).value ==
              Props(props.exception, props.important || "important" in words, props.badfilter || "badfilter" in words)
    decreases |words|
  {
    if words != [] {
      var w, rest := words[0], words[1..];
      assert forall s :: s in words <==> s == w || s in rest;
      if w == "important" && !props.important {
        ModifiersMeaning(rest, props.(important := true));
        OneMore(words, props, props.(important := true));
      } else if w == "badfilter" && !props.badfilter {
        ModifiersMeaning(rest, props.(badfilter := true));
        OneMore(words, props, props.(badfilter := true));
      }
    }
  }

  lemma OneMore(words: seq<string>, props: Props, more: Props)
    requires words != []
    requires || (words[0] == "important" && !props.important && more == props.(important := true))
             || (words[0] == "badfilter" && !props.badfilter && more == props.(badfilter := true))
    ensures GoodModifiers(words, props) <==> GoodModifiers(words[1..], more)
  {
    var w, rest := words[0], words[1..];
    assert forall i :: 0 <= i < |rest| ==> rest[i] == words[i + 1];
    assert w in rest <==> exists i :: 1 <= i < |words| && words[i] == w;
    if GoodModifiers(rest, more) {
      assert w !in rest;
    }
  }

  // ----- the text that is kept --------------------------------------------------------------------------------

  lemma NameIsOnePiece(s: string)
    requires s != "" && IsValidDomainPattern(s)
    ensures |SplitByAnyOf(s, " \t")| == 1
  {
    var delims := " \t";
    assert forall c :: c in delims ==> c == ' ' || c == '\t';
    SplitWithoutDelimiters(s, delims);
  }

  lemma HostsTextParses(env: Env, line: string)
    requires Trimmed(line) && line != "" && !IsComment(line) && ParseHostRule(env, line).Some?
    ensures Parse(env, WithoutComment(line)) == ParseHostRule(env, line)
  {
    var t := WithoutComment(line);
    WithoutCommentFacts(line);
    WithoutCommentAgain(t);
    TrimTrims(t);
    if IsDomainName(env, t) {
      NameIsOnePiece(t);
    }
  }

  /** The text kept with a rule parses to that very rule. */
  lemma TextParsesAlike(env: Env, line: string)
    requires Trimmed(line) && Parse(env, line).Some?
    ensures Parse(env, Parse(env, line).value.pub.text) == Parse(env, line)
  {
    RuleTexts(env, line);
    if Parse(env, line).value.pub.text != line {
      ParsedAsHosts(env, line);
      HostsTextParses(env, line);
    }
  }

  lemma ParsedAsHosts(env: Env, line: string)
    requires Trimmed(line) && Parse(env, line).Some? && Parse(env, line).value.pub.ip.Some?
    ensures line != "" && !IsComment(line) && Parse(env, line) == ParseHostRule(env, line)
  {
    TrimTrims(line);
  }
}
