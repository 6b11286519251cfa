/** What lines of a rule list on domain names find, said on their texts: `||name^`, `|name^`, a bare name, and lines of a
    hosts file, with and without an exception marker and modifiers (dnsfilter/src/rule_utils.cpp, dnsfilter/src/filter.cpp). */
module DomainRules {
  import opened Text
  import opened Lines
  import opened RuleSyntax
  import opened RuleText
  import opened FilterSpec
  import opened FilterIndex
  import opened FilterMeaning

  // ----- lines made from a pattern ----------------------------------------------------------------------------

  /** A line: an exception marker or none, a pattern with what stands around it, and modifiers. */
  datatype Line = Line(exception: bool, anchor: string, scheme: string, pattern: string, stop: string, words: seq<string>)

  function Modifiers(words: seq<string>): string {
    if words == [] then "" else "$" + JoinWords(words, ',')
  }

  function BodyOf(x: Line): string {
    Body(x.anchor, x.scheme, x.pattern, x.stop)
  }

  function Written(x: Line): string {
    (if x.exception then "@@" else "") + (BodyOf(x) + Modifiers(x.words))
  }

  /** Something stands around the pattern; otherwise the line may be a bare name. */
  ghost predicate IsLine(x: Line) {
    && IsBody(x.anchor, x.scheme, x.pattern, x.stop) && AreTokens(x.words, ",$/")
    && (x.exception || x.anchor != "" || x.scheme != "" || x.stop != "" || x.words != [])
  }

  /** What the pattern asserts. */
  function InfoOf(x: Line): MatchInfo {
    MatchInfo(x.pattern, false,
              Mode(x.anchor == "|", x.stop != "", x.anchor == "||" || (x.scheme != "" && x.anchor != "|")))
  }

  // ----- their characters -------------------------------------------------------------------------------------

  predicate IsBodyChar(c: char) {
    IsDomainChar(c) || c == '|' || c == '^' || c == '/' || c == ':'
  }

  lemma SchemeChars(scheme: string)
    requires IsScheme(scheme)
    ensures forall i :: 0 <= i < |scheme| ==> IsBodyChar(scheme[i])
    ensures exists i :: 0 <= i < |scheme| && !IsDomainChar(scheme[i])
  {
    assert !IsDomainChar(scheme[|scheme| - 1]);
  }

  lemma BodyChars(anchor: string, scheme: string, t: string, stop: string)
    requires IsBody(anchor, scheme, t, stop)
    ensures var s := Body(anchor, scheme, t, stop); s != "" && forall i :: 0 <= i < |s| ==> IsBodyChar(s[i])
  {
    var s := Body(anchor, scheme, t, stop);
    if scheme != "" {
      SchemeChars(scheme);
    }
    StopChars(stop);
    forall i | 0 <= i < |s|
      ensures IsBodyChar(s[i])
    {
      var j := i - |anchor|;
      if j >= 0 {
        assert s[i] == (scheme + (t + stop))[j];
        assert j >= |scheme| ==> s[i] == (t + stop)[j - |scheme|];
      }
    }
  }

  lemma {:induction false} ModifierChars(words: seq<string>, delims: string)
    requires words != [] && AreTokens(words, delims)
    ensures forall i :: 0 <= i < |JoinWords(words, ',')| ==> !IsSpace(JoinWords(words, ',')[i])
    decreases |words|
  {
    if |words| > 1 {
      ModifierChars(words[1..], delims);
    }
  }

  lemma WordsLack(words: seq<string>, c: char, delims: string)
    requires words != [] && AreTokens(words, delims) && c in delims && c != ','
    ensures c !in JoinWords(words, ',')
  {
    forall i | 0 <= i < |words|
      ensures c !in words[i]
    {
      assert IsToken(words[i], delims);
    }
    JoinedChars(words, ',', c);
  }

  // ----- how they are taken apart -----------------------------------------------------------------------------

  lemma MarkerIsSeen(x: Line)
    requires IsLine(x)
    ensures StartsWith(Written(x), "@@") <==> x.exception
    ensures (if x.exception then Written(x)[2..] else Written(x)) == BodyOf(x) + Modifiers(x.words)
  {
    var rest := BodyOf(x) + Modifiers(x.words);
    BodyChars(x.anchor, x.scheme, x.pattern, x.stop);
    if x.exception {
      assert Written(x)[..2] == "@@" && Written(x)[2..] == rest;
    } else {
      assert Written(x) == rest;
      assert rest[0] == BodyOf(x)[0];
      NotAtFirst(rest, "@@", 0);
    }
  }

  lemma ModifiersAreSplit(words: seq<string>)
    requires AreTokens(words, ",$/")
    ensures var mods := if words == [] then "" else JoinWords(words, ',');
            (if mods == "" then [] else SplitByAnyOf(mods, ",")) == words
  {
    if words != [] {
      assert AreTokens(words, ",");
      assert ',' in ",";
      SplitJoined(words, ',', ",");
      JoinedEnds(words, ',');
    }
  }

  lemma RestIsSplit(body: string, words: seq<string>)
    requires '$' !in body && AreTokens(words, ",$/")
    ensures RSplit2(body + Modifiers(words), '$') == (body, if words == [] then "" else JoinWords(words, ','))
  {
    if words == [] {
      assert body + "" == body;
      NoOccurrence(body, '$');
    } else {
      var mods := JoinWords(words, ',');
      assert ",$/"[1] == '$';
      WordsLack(words, '$', ",$/");
      MarkerBehind(body, mods);
    }
  }

  lemma MarkerBehind(body: string, mods: string)
    requires '$' !in mods
    ensures RSplit2(body + ("$" + mods), '$') == (body, mods)
  {
    LastDollar(body, mods);
    Regroup(body, "$", mods);
  }

  lemma RestIsNoRegex(x: Line)
    requires IsLine(x)
    ensures !CheckRegex(BodyOf(x) + Modifiers(x.words))
  {
    if x.words == [] {
      assert BodyOf(x) + "" == BodyOf(x);
      BodyIsNoRegex(x.anchor, x.scheme, x.pattern, x.stop);
    } else {
      JoinedEnds(x.words, ',');
      var last := x.words[|x.words| - 1];
      assert IsToken(last, ",$/") && last[|last| - 1] !in ",$/";
      assert ",$/"[2] == '/';
    }
  }

  lemma PartsOfLine(x: Line)
    requires IsLine(x)
    ensures PatternPart(Written(x)) == (BodyOf(x), if x.words == [] then "" else JoinWords(x.words, ','))
  {
    MarkerIsSeen(x);
    RestIsNoRegex(x);
    BodyLacks(x, '$');
    RestIsSplit(BodyOf(x), x.words);
    PartsFrom(Written(x), x.exception, BodyOf(x) + Modifiers(x.words), BodyOf(x),
              if x.words == [] then "" else JoinWords(x.words, ','));
  }

  lemma BodyLacks(x: Line, c: char)
    requires IsLine(x) && !IsBodyChar(c)
    ensures c !in BodyOf(x)
  {
    BodyChars(x.anchor, x.scheme, x.pattern, x.stop);
  }

  lemma PartsFrom(s: string, exception: bool, rest: string, body: string, mods: string)
    requires StartsWith(s, "@@") == exception && rest == (if exception then s[2..] else s)
    requires !CheckRegex(rest) && RSplit2(rest, '$') == (body, mods)
    ensures PatternPart(s) == (body, mods)
  {
  }

  // ----- what kind of line they are ---------------------------------------------------------------------------

  lemma LineChars(x: Line)
    requires IsLine(x)
    ensures var s := Written(x); s != "" && (forall i :: 0 <= i < |s| ==> !IsSpace(s[i])) && s[0] != '!' && s[0] != '#'
  {
    BodyChars(x.anchor, x.scheme, x.pattern, x.stop);
    if x.words != [] {
      ModifierChars(x.words, ",$/");
    }
    NoSpaces(if x.exception then "@@" else "", BodyOf(x), Modifiers(x.words));
  }

  lemma NoSpaces(a: string, b: string, c: string)
    requires (a == "" || a == "@@") && b != "" && (forall i :: 0 <= i < |b| ==> IsBodyChar(b[i]))
    requires forall i :: 0 <= i < |c| ==> !IsSpace(c[i])
    ensures var s := a + (b + c); s != "" && (forall i :: 0 <= i < |s| ==> !IsSpace(s[i])) && s[0] != '!' && s[0] != '#'
  {
    var s := a + (b + c);
    forall i | 0 <= i < |s|
      ensures !IsSpace(s[i])
    {
      if i >= |a| {
        assert s[i] == (b + c)[i - |a|];
      }
    }
  }

  lemma LineIsNoName(x: Line)
    requires IsLine(x)
    ensures exists i :: 0 <= i < |Written(x)| && !IsDomainChar(Written(x)[i])
  {
    var s, b := Written(x), BodyOf(x);
    var k := if x.exception then 2 else 0;
    if x.exception {
      assert s[0] == '@';
    } else if x.words != [] {
      assert s[|b|] == '$';
    } else if x.anchor != "" {
      assert s[0] == '|';
    } else if x.scheme != "" {
      SchemeChars(x.scheme);
      var i :| 0 <= i < |x.scheme| && !IsDomainChar(x.scheme[i]);
      assert s[i] == x.scheme[i];
    } else {
      StopChars(x.stop);
      assert s[|x.pattern|] == x.stop[0];
    }
  }

  lemma LineIsPattern(env: Env, x: Line)
    requires IsLine(x)
    ensures Trimmed(Written(x)) && |SplitByAnyOf(Written(x), " \t")| == 1
    ensures Parse(env, Written(x)) == ParsePattern(env, Written(x), Written(x))
  {
    LineChars(x);
    LineIsNoName(x);
    NothingElse(env, Written(x));
  }

  lemma NothingElse(env: Env, s: string)
    requires s != "" && (forall i :: 0 <= i < |s| ==> !IsSpace(s[i])) && s[0] != '!' && s[0] != '#'
    requires exists i :: 0 <= i < |s| && !IsDomainChar(s[i])
    ensures Trimmed(s) && |SplitByAnyOf(s, " \t")| == 1 && Parse(env, s) == ParsePattern(env, s, s)
  {
    TrimTrims(s);
    BlankFree(s);
  }

  lemma BlankFree(s: string)
    requires s != "" && forall i :: 0 <= i < |s| ==> !IsSpace(s[i])
    ensures |SplitByAnyOf(s, " \t")| == 1
  {
    var delims := " \t";
    assert forall c :: c in delims ==> c == ' ' || c == '\t';
    SplitWithoutDelimiters(s, delims);
  }

  // ----- what they are parsed to ------------------------------------------------------------------------------

  function PropsOf(x: Line): Props {
    Props(x.exception, "important" in x.words, "badfilter" in x.words)
  }

  /** The rule of a line, or none when its pattern or its modifiers are not accepted. */
  ghost function RuleOf(env: Env, x: Line): Option<ParsedRule> {
    RuleWith(env, Written(x), GoodModifiers(x.words, NO_PROPS), PropsOf(x), InfoOf(x))
  }

  predicate IsAccepted(t: string) {
    !IsTooWide(t) && (IsValidDomainPattern(t) || IsValidIpPattern(t))
  }

  function RuleWith(env: Env, s: string, good: bool, props: Props, info: MatchInfo): Option<ParsedRule> {
    if !IsAccepted(info.text) || !good then None
    else if props.badfilter then Some(ParsedRule(Rule(s, props, None), Exact, []))
    else
      var (m, parts) := ChooseMethod(env, info);
      if (m.Regex? || m.ShortcutsAndRegex?) && !env.validRegex(GetRegex(s)) then None
      else Some(ParsedRule(Rule(s, props, None), m, parts))
  }

  lemma LineIsParsed(env: Env, x: Line)
    requires IsLine(x)
    ensures Parse(env, Written(x)) == RuleOf(env, x)
  {
    var mods := if x.words == [] then "" else JoinWords(x.words, ',');
    LineIsPattern(env, x);
    MarkerIsSeen(x);
    PartsOfLine(x);
    BodyInfo(x.anchor, x.scheme, x.pattern, x.stop);
    ModifiersAreSplit(x.words);
    ModifiersOf(x);
    ParsedFrom(env, Written(x), BodyOf(x), mods, x.words, InfoOf(x), PropsOf(x), GoodModifiers(x.words, NO_PROPS));
  }

  lemma ModifiersOf(x: Line)
    ensures ExtractModifiers(x.words, NO_PROPS.(exception := x.exception)) ==
            if GoodModifiers(x.words, NO_PROPS) then Some(PropsOf(x)) else None
  {
    ModifiersMeaning(x.words, NO_PROPS.(exception := x.exception));
  }

  lemma ParsedFrom(env: Env, s: string, body: string, mods: string, words: seq<string>, info: MatchInfo, props: Props,
                   good: bool)
    requires PatternPart(s) == (body, mods) && ExtractMatchInfo(body) == info && !info.isRegex && info.text != ""
    requires (if mods == "" then [] else SplitByAnyOf(mods, ",")) == words
    requires ExtractModifiers(words, NO_PROPS.(exception := StartsWith(s, "@@"))) == if good then Some(props) else None
    ensures ParsePattern(env, s, s) == RuleWith(env, s, good, props, info)
  {
  }

  /** A rule made from a pattern is an exception exactly when it has the marker, and important, or for cancelling another one,
      exactly when it has that modifier; it keeps its line as its text. */
  lemma LineProps(env: Env, x: Line)
    requires IsLine(x) && Parse(env, Written(x)).Some?
    ensures var pub := Parse(env, Written(x)).value.pub;
            && pub.text == Written(x) && pub.ip.None?
            && (pub.props.exception <==> StartsWith(Written(x), "@@"))
            && (pub.props.important <==> "important" in x.words)
            && (pub.props.badfilter <==> "badfilter" in x.words)
  {
    LineIsParsed(env, x);
    MarkerIsSeen(x);
  }

  /** A line with modifiers has a rule only if each is one of the two words, and none twice. */
  lemma LineModifiers(env: Env, x: Line)
    requires IsLine(x) && Parse(env, Written(x)).Some?
    ensures forall i :: 0 <= i < |x.words| ==> x.words[i] == "important" || x.words[i] == "badfilter"
    ensures forall i, j :: 0 <= i < j < |x.words| ==> x.words[i] != x.words[j]
  {
    LineIsParsed(env, x);
  }

  // ----- names ------------------------------------------------------------------------------------------------

  predicate IsNameChar(c: char) {
    'a' <= c <= 'z' || 'A' <= c <= 'Z' || '0' <= c <= '9' || c == '.' || c == '-' || c == '_'
  }

  /** At most 255 letters, digits, hyphens, underscores and dots, no 64 of them without a dot. */
  ghost predicate IsHostName(d: string) {
    && 0 < |d| <= 255 && (forall i :: 0 <= i < |d| ==> IsNameChar(d[i]))
    && (exists i :: 0 <= i < |d| && d[i] != '.')
    && ShortLabels(d)
  }

  ghost predicate ShortLabels(d: string) {
    forall i :: 0 <= i <= |d| - 64 ==> HasDot(d, i)
  }

  ghost predicate HasDot(d: string, i: nat)
    requires i + 64 <= |d|
  {
    exists j :: i <= j < i + 64 && d[j] == '.'
  }

  /** A name of several labels. */
  ghost predicate IsDomain(d: string) {
    IsHostName(d) && '.' in d && d[0] != '.' && d[|d| - 1] != '.'
  }

  lemma TrimShortens(s: string)
    ensures |Trim(s)| <= |s|
  {
  }

  ghost predicate ShortParts(parts: seq<string>) {
    forall i :: 0 <= i < |parts| ==> |parts[i]| <= 63
  }

  lemma ShortConcat(a: seq<string>, b: seq<string>)
    requires ShortParts(a) && ShortParts(b)
    ensures ShortParts(a + b)
  {
  }

  lemma {:induction false} LabelsAreShort(f: string -> seq<string>, d: string, delims: string, from: nat)
    requires from <= |d| && ShortLabels(d) && '.' in delims && forall s :: |s| <= 63 ==> ShortParts(f(s))
    ensures ShortParts(SplitWith(f, d, delims, from))
    decreases |d| - from
  {
    var end := FindFirstOf(d, delims, from);
    LabelIsShort(d, delims, from, end);
    assert ShortParts(f(d[from..end]));
    if end < |d| {
      LabelsAreShort(f, d, delims, end + 1);
      ShortConcat(f(d[from..end]), SplitWith(f, d, delims, end + 1));
    }
  }

  lemma LabelIsShort(d: string, delims: string, from: nat, end: nat)
    requires from <= |d| && end == FindFirstOf(d, delims, from) && '.' in delims && ShortLabels(d)
    ensures end - from <= 63
  {
    if from + 64 <= |d| {
      assert HasDot(d, from);
    }
  }

  lemma TrimmedIsShort(s: string)
    ensures |s| <= 63 ==> ShortParts(TrimmedPiece(s))
  {
    TrimShortens(s);
  }

  lemma HostNameIsPattern(d: string)
    requires IsHostName(d)
    ensures IsPatternText(d) && IsValidDomainPattern(d) && !IsTooWide(d) && '*' !in d
  {
    PatternChars(d);
    LabelsFit(d);
  }

  lemma PatternChars(d: string)
    requires IsHostName(d)
    ensures IsPatternText(d) && !IsTooWide(d) && '*' !in d && forall i :: 0 <= i < |d| ==> IsDomainChar(d[i])
  {
  }

  lemma LabelsFit(d: string)
    requires d != "" && ShortLabels(d)
    ensures forall part :: part in SplitByAnyOf(d, ".") ==> |part| <= 63
  {
    forall s | |s| <= 63
      ensures ShortParts(TrimmedPiece(s))
    {
      TrimmedIsShort(s);
    }
    assert '.' in ".";
    LabelsAreShort(TrimmedPiece, d, ".", 0);
  }

  // ----- one line in a list -----------------------------------------------------------------------------------

  /** A line of a list whose rule has that line as its text is found in the list exactly when it is accepted. */
  lemma FoundInList(env: Env, lines: seq<Reported>, k: nat, host: string)
    requires (forall i :: 0 <= i < |lines| ==> Trimmed(lines[i].1)) && k < |lines|
    requires Parse(env, lines[k].1).Some? ==> Parse(env, lines[k].1).value.pub.text == lines[k].1
    ensures lines[k].1 in FoundByScan(MatcherOf(env), lines, host) <==> IndexAccepts(MatcherOf(env), lines[k].1, host)
  {
    var m, line := MatcherOf(env), lines[k].1;
    if line in FoundByScan(m, lines, host) {
      var j :| 0 <= j < |lines| && IndexAccepts(m, lines[j].1, host) && TextOf(m, lines[j].1) == line;
      TextParsesAlike(env, lines[j].1);
      AcceptedAlike(m, lines[j].1, line, host);
    }
    if IndexAccepts(m, line, host) {
      assert TextOf(m, line) == line;
    }
  }

  lemma AcceptedAlike(m: Matcher, line: string, text: string, host: string)
    requires m.parse(line) == m.parse(text)
    ensures IndexAccepts(m, line, host) <==> IndexAccepts(m, text, host)
  {
  }

  lemma EndsBehindDot(host: string, d: string)
    ensures FollowsDot(host, d) <==> EndsWith(host, "." + d)
  {
    if FollowsDot(host, d) {
      var k :| 0 <= k < |host| && host[k] == '.' && d == host[k + 1..];
      assert host[k..] == "." + d;
    }
    if EndsWith(host, "." + d) {
      var k := |host| - |"." + d|;
      assert host[k..][0] == '.' && host[k..][1..] == d;
      assert host[k] == '.' && host[k + 1..] == d;
    }
  }

  // ----- the lines on names -----------------------------------------------------------------------------------

  /** Accepted modifiers other than the one for cancelling. */
  predicate AtMostImportant(words: seq<string>) {
    words == [] || words == ["important"]
  }

  lemma ImportantIsGood(words: seq<string>)
    requires AtMostImportant(words)
    ensures GoodModifiers(words, NO_PROPS) && "badfilter" !in words
  {
  }

  lemma SubdomainsAccept(m: Matcher, line: string, d: string, host: string)
    requires m.parse(line).Some? && m.parse(line).value.method_.Subdomains? && m.parse(line).value.parts == [d]
    requires !m.parse(line).value.pub.props.badfilter
    ensures IndexAccepts(m, line, host) <==> host == d || ('.' in d && EndsWith(host, "." + d))
  {
    SubdomainRuleMeaning(m, m.parse(line).value, host);
    EndsBehindDot(host, d);
    assert m.parse(line).value.parts[0] == d;
  }

  lemma ExactAccepts(m: Matcher, line: string, d: string, host: string)
    requires m.parse(line).Some? && m.parse(line).value.method_.Exact? && m.parse(line).value.parts == [d]
    requires !m.parse(line).value.pub.props.badfilter
    ensures IndexAccepts(m, line, host) <==> host == d
  {
  }

  lemma ChoosesSubdomains(env: Env, t: string)
    requires '*' !in t
    ensures ChooseMethod(env, MatchInfo(t, false, Mode(false, true, true))) == (Subdomains, [ToLower(t)])
  {
  }

  lemma ChoosesExact(env: Env, t: string)
    requires '*' !in t
    ensures ChooseMethod(env, MatchInfo(t, false, Mode(true, true, false))) == (Exact, [NumericOrLower(env, t)])
  {
  }

  /** An address in its usual form, any other name in lower case. */
  function NumericOrLower(env: Env, t: string): string {
    if env.numericHost(t).Some? then env.numericHost(t).value else ToLower(t)
  }

  lemma RuleIsThere(env: Env, s: string, props: Props, info: MatchInfo, m: MatchMethod, parts: seq<string>)
    requires IsAccepted(info.text) && !props.badfilter && ChooseMethod(env, info) == (m, parts)
    requires m.Exact? || m.Subdomains?
    ensures RuleWith(env, s, true, props, info) == Some(ParsedRule(Rule(s, props, None), m, parts))
  {
  }

  lemma SubdomainLine(env: Env, x: Line)
    requires IsLine(x) && IsHostName(x.pattern) && x.stop != "" && AtMostImportant(x.words)
    requires x.anchor == "||" || (x.anchor == "" && x.scheme != "")
    ensures Parse(env, Written(x)) == Some(ParsedRule(Rule(Written(x), PropsOf(x), None), Subdomains, [ToLower(x.pattern)]))
  {
    LineIsParsed(env, x);
    ImportantIsGood(x.words);
    HostNameIsPattern(x.pattern);
    ChoosesSubdomains(env, x.pattern);
    RuleIsThere(env, Written(x), PropsOf(x), InfoOf(x), Subdomains, [ToLower(x.pattern)]);
  }

  lemma ExactLine(env: Env, x: Line)
    requires IsLine(x) && IsHostName(x.pattern) && x.stop != "" && x.anchor == "|" && AtMostImportant(x.words)
    ensures Parse(env, Written(x)) ==
            Some(ParsedRule(Rule(Written(x), PropsOf(x), None), Exact, [NumericOrLower(env, x.pattern)]))
  {
    LineIsParsed(env, x);
    ImportantIsGood(x.words);
    HostNameIsPattern(x.pattern);
    ChoosesExact(env, x.pattern);
    RuleIsThere(env, Written(x), PropsOf(x), InfoOf(x), Exact, [NumericOrLower(env, x.pattern)]);
  }

  /** `||name^`, and the same with a scheme, another stop, a marker or the modifier: found exactly for the name and, if it
      has a dot, for all names that end in a dot and it. */
  lemma SubdomainLineMeaning(env: Env, x: Line, lines: seq<Reported>, k: nat, host: string)
    requires IsLine(x) && IsHostName(x.pattern) && x.stop != "" && AtMostImportant(x.words)
    requires x.anchor == "||" || (x.anchor == "" && x.scheme != "")
    requires (forall i :: 0 <= i < |lines| ==> Trimmed(lines[i].1)) && k < |lines| && lines[k].1 == Written(x)
    ensures Written(x) in FoundByScan(MatcherOf(env), lines, host) <==>
            var d := ToLower(x.pattern); host == d || ('.' in d && EndsWith(host, "." + d))
  {
    SubdomainLine(env, x);
    SubdomainsAccept(MatcherOf(env), Written(x), ToLower(x.pattern), host);
    FoundInList(env, lines, k, host);
  }

  /** `|name^` and its like: found exactly for the name, or for the address that it is in its usual form. */
  lemma ExactLineMeaning(env: Env, x: Line, lines: seq<Reported>, k: nat, host: string)
    requires IsLine(x) && IsHostName(x.pattern) && x.stop != "" && x.anchor == "|" && AtMostImportant(x.words)
    requires (forall i :: 0 <= i < |lines| ==> Trimmed(lines[i].1)) && k < |lines| && lines[k].1 == Written(x)
    ensures Written(x) in FoundByScan(MatcherOf(env), lines, host) <==>
            host == NumericOrLower(env, x.pattern)
  {
    ExactLine(env, x);
    ExactAccepts(MatcherOf(env), Written(x), NumericOrLower(env, x.pattern), host);
    FoundInList(env, lines, k, host);
  }

  /** The plainest case. */
  lemma BarsAndNameMeaning(env: Env, d: string, lines: seq<Reported>, k: nat, host: string)
    requires IsDomain(d) && IsLower(d) && (forall i :: 0 <= i < |lines| ==> Trimmed(lines[i].1)) && k < |lines|
    ensures lines[k].1 == "||" + d + "^" ==>
              (lines[k].1 in FoundByScan(MatcherOf(env), lines, host) <==> host == d || EndsWith(host, "." + d))
    ensures lines[k].1 == "|" + d + "^" && env.numericHost(d).None? ==>
              (lines[k].1 in FoundByScan(MatcherOf(env), lines, host) <==> host == d)
  {
    ToLowerIsLower(d);
    HostNameIsPattern(d);
    OneMark("^");
    if lines[k].1 == "||" + d + "^" {
      PlainlyWritten("||", d, "^");
      SubdomainLineMeaning(env, Line(false, "||", "", d, "^", []), lines, k, host);
    }
    if lines[k].1 == "|" + d + "^" {
      PlainlyWritten("|", d, "^");
      ExactLineMeaning(env, Line(false, "|", "", d, "^", []), lines, k, host);
    }
  }

  lemma PlainlyWritten(anchor: string, d: string, stop: string)
    ensures Written(Line(false, anchor, "", d, stop, [])) == anchor + d + stop
  {
  }

  // ----- bare names -------------------------------------------------------------------------------------------

  lemma BareNameIsParsed(env: Env, d: string)
    requires IsDomain(d) && !env.isAddress(d)
    ensures Trimmed(d) && Parse(env, d) == Some(ParsedRule(Rule(d, NO_PROPS, None), Exact, [ToLower(d)]))
  {
    HostNameIsPattern(d);
    assert IsDomainName(env, d);
    NameAlone(env, d);
  }

  lemma NameAlone(env: Env, d: string)
    requires IsDomainName(env, d) && IsNameChar(d[0]) && IsNameChar(d[|d| - 1])
    ensures Trimmed(d) && Parse(env, d) == Some(ParsedRule(Rule(d, NO_PROPS, None), Exact, [ToLower(d)]))
  {
    TrimTrims(d);
  }

  /** A name alone on a line is found exactly for itself. */
  lemma BareNameMeaning(env: Env, d: string, lines: seq<Reported>, k: nat, host: string)
    requires IsDomain(d) && !env.isAddress(d)
    requires (forall i :: 0 <= i < |lines| ==> Trimmed(lines[i].1)) && k < |lines| && lines[k].1 == d
    ensures d in FoundByScan(MatcherOf(env), lines, host) <==> host == ToLower(d)
  {
    BareNameIsParsed(env, d);
    ExactAccepts(MatcherOf(env), d, ToLower(d), host);
    FoundInList(env, lines, k, host);
  }

  // ----- lines of a hosts file --------------------------------------------------------------------------------

  ghost predicate AreHostNames(names: seq<string>) {
    forall i :: 0 <= i < |names| ==> IsHostName(names[i])
  }

  lemma {:induction false} NamesAreRead(names: seq<string>)
    requires AreHostNames(names)
    ensures HostNames(names) == Some(LowerAll(names))
    decreases |names|
  {
    if names != [] {
      NameIsRead(names);
      NamesAreRead(names[1..]);
      LowerFirst(names);
    }
  }

  lemma NameIsRead(names: seq<string>)
    requires names != [] && IsHostName(names[0])
    ensures HostNames(names) ==
            if HostNames(names[1..]).None? then None else Some([ToLower(names[0])] + HostNames(names[1..]).value)
  {
    HostNameIsPattern(names[0]);
  }

  lemma LowerFirst(names: seq<string>)
    requires names != []
    ensures LowerAll(names) == [ToLower(names[0])] + LowerAll(names[1..])
  {
  }

  lemma HostNameIsToken(d: string)
    requires IsHostName(d)
    ensures IsToken(d, " \t") && '#' !in d
  {
    var delims := " \t";
    assert forall c :: c in delims ==> c == ' ' || c == '\t';
  }

  /** An address that a hosts line may start with. */
  ghost predicate IsAddressWord(env: Env, ip: string) {
    IsToken(ip, " \t") && '#' !in ip && ip[0] != '!' && env.numericHost(ip).Some?
  }

  function HostsLine(ip: string, names: seq<string>, sep: char): string {
    JoinWords([ip] + names, sep)
  }

  lemma HostsLineFacts(env: Env, ip: string, names: seq<string>, sep: char)
    requires IsAddressWord(env, ip) && names != [] && AreHostNames(names) && (sep == ' ' || sep == '\t')
    ensures var s := HostsLine(ip, names, sep);
            && SplitByAnyOf(s, " \t") == [ip] + names && s != "" && Trimmed(s) && '#' !in s && s[0] == ip[0]
  {
    var words := [ip] + names;
    forall i | 0 <= i < |words|
      ensures IsToken(words[i], " \t") && '#' !in words[i]
    {
      if i > 0 {
        HostNameIsToken(names[i - 1]);
      }
    }
    assert sep in " \t";
    SplitJoined(words, sep, " \t");
    JoinedEnds(words, sep);
    JoinedChars(words, sep, '#');
    var last := words[|words| - 1];
    assert IsToken(last, " \t");
  }

  lemma HostsLineIsParsed(env: Env, ip: string, names: seq<string>, sep: char)
    requires IsAddressWord(env, ip) && names != [] && AreHostNames(names) && (sep == ' ' || sep == '\t')
    ensures var s := HostsLine(ip, names, sep);
            Trimmed(s) && Parse(env, s) == Some(ParsedRule(Rule(s, NO_PROPS, Some(ip)), Subdomains, LowerAll(names)))
  {
    var s := HostsLine(ip, names, sep);
    HostsLineFacts(env, ip, names, sep);
    TrimTrims(s);
    WithoutCommentAgain(s);
    NamesAreRead(names);
    assert ([ip] + names)[1..] == names;
    HostsLineIsRead(env, s, ip, names);
  }

  lemma HostsLineIsRead(env: Env, s: string, ip: string, names: seq<string>)
    requires s != "" && Trim(s) == s && WithoutComment(s) == s && SplitByAnyOf(s, " \t") == [ip] + names && names != []
    requires ([ip] + names)[1..] == names && HostNames(names) == Some(LowerAll(names)) && env.numericHost(ip).Some?
    requires s[0] != '!' && s[0] != '#'
    ensures Parse(env, s) == Some(ParsedRule(Rule(s, NO_PROPS, Some(ip)), Subdomains, LowerAll(names)))
  {
    if IsDomainName(env, s) {
      NameIsOnePiece(s);
    }
  }

  lemma NamesAccept(m: Matcher, line: string, names: seq<string>, host: string)
    requires m.parse(line).Some? && m.parse(line).value.method_.Subdomains? && m.parse(line).value.parts == LowerAll(names)
    requires !m.parse(line).value.pub.props.badfilter
    ensures IndexAccepts(m, line, host) <==>
            exists i :: 0 <= i < |names| && CoveredBy(host, ToLower(names[i]))
  {
    SubdomainRuleMeaning(m, m.parse(line).value, host);
    forall i | 0 <= i < |names|
      ensures CoveredBy(host, ToLower(names[i])) <==>
              (host == LowerAll(names)[i] || ('.' in LowerAll(names)[i] && FollowsDot(host, LowerAll(names)[i])))
    {
      EndsBehindDot(host, ToLower(names[i]));
    }
  }

  /** The name itself, or, for a name with a dot, one that ends in a dot and it. */
  predicate CoveredBy(host: string, d: string) {
    host == d || ('.' in d && EndsWith(host, "." + d))
  }

  /** An address and names, with blanks between them: found exactly for the names and what ends in a dot and one of them; the
      rule has the address, no modifiers, and its line as text. */
  lemma HostsLineMeaning(env: Env, ip: string, names: seq<string>, sep: char, lines: seq<Reported>, k: nat, host: string)
    requires IsAddressWord(env, ip) && names != [] && AreHostNames(names) && (sep == ' ' || sep == '\t')
    requires (forall i :: 0 <= i < |lines| ==> Trimmed(lines[i].1)) && k < |lines| && lines[k].1 == HostsLine(ip, names, sep)
    ensures Parse(env, lines[k].1).Some? && Parse(env, lines[k].1).value.pub == Rule(lines[k].1, NO_PROPS, Some(ip))
    ensures lines[k].1 in FoundByScan(MatcherOf(env), lines, host) <==>
            exists i :: 0 <= i < |names| && CoveredBy(host, ToLower(names[i]))
  {
    HostsLineIsParsed(env, ip, names, sep);
    NamesAccept(MatcherOf(env), lines[k].1, names, host);
    FoundInList(env, lines, k, host);
  }

  lemma CommentIsCut(s: string, comment: string)
    requires s != "" && Trimmed(s) && '#' !in s
    ensures WithoutComment(s + " #" + comment) == s
  {
    var t := s + " #" + comment;
    assert t[|s| + 1] == '#' && forall i :: 0 <= i < |s| ==> t[i] == s[i];
    assert forall c :: c in "#" <==> c == '#';
    assert FindFirstOf(t, "#", 0) == |s| + 1;
    assert t[..|s| + 1] == s + " ";
    BlankIsCut(s);
  }

  lemma BlankIsCut(s: string)
    requires s != "" && Trimmed(s)
    ensures RTrim(s + " ") == s
  {
    var t := s + " ";
    assert t[|s|] == ' ' && t[|s| - 1] == s[|s| - 1];
    assert SkipSpacesBack(t, 0, |t|) == SkipSpacesBack(t, 0, |s|) == |s|;
    assert t[..|s|] == s;
  }

  // ----- lines without a rule ---------------------------------------------------------------------------------

  /** A line that starts with `!` or `#` is a comment, and one with nothing but dots and wildcards between what stands around
      a pattern is too wide: neither has a rule. */
  lemma IgnoredLines(env: Env, line: string, x: Line)
    ensures line != "" && (line[0] == '!' || line[0] == '#') ==> Parse(env, line).None?
    ensures Trim(line) == "" ==> Parse(env, line).None?
    ensures IsLine(x) && (forall i :: 0 <= i < |x.pattern| ==> x.pattern[i] == '.' || x.pattern[i] == '*') ==>
              Parse(env, Written(x)).None?
  {
    if IsLine(x) {
      LineIsParsed(env, x);
    }
  }

  /** Some character is no dot and no wildcard, there are at most 255, and no 64 in a row without a dot. */
  ghost predicate Fits(t: string) {
    (exists i :: 0 <= i < |t| && t[i] != '.' && t[i] != '*') && |t| <= 255 && ShortLabels(t)
  }

  ghost predicate HasLong(parts: seq<string>) {
    exists k :: 0 <= k < |parts| && |parts[k]| > 63
  }

  lemma LongInConcat(a: seq<string>, b: seq<string>)
    requires HasLong(a) || HasLong(b)
    ensures HasLong(a + b)
  {
    if HasLong(b) {
      var k :| 0 <= k < |b| && |b[k]| > 63;
      assert (a + b)[|a| + k] == b[k];
    } else {
      var k :| 0 <= k < |a| && |a[k]| > 63;
      assert (a + b)[k] == a[k];
    }
  }

  lemma {:induction false} LongLabel(f: string -> seq<string>, d: string, from: nat, i: nat)
    requires from <= i && i + 64 <= |d| && !HasDot(d, i)
    requires forall j, n :: 0 <= j <= n <= |d| && n - j > 63 ==> HasLong(f(d[j..n]))
    ensures HasLong(SplitWith(f, d, ".", from))
    decreases |d| - from
  {
    var end := FindFirstOf(d, ".", from);
    assert end < |d| ==> d[end] == '.';
    if end <= i {
      LongLabel(f, d, end + 1, i);
      LongInConcat(f(d[from..end]), SplitWith(f, d, ".", end + 1));
    } else {
      assert HasLong(f(d[from..end]));
      if end < |d| {
        LongInConcat(f(d[from..end]), SplitWith(f, d, ".", end + 1));
      }
    }
  }

  lemma LongPiece(s: string)
    requires |s| > 63 && forall j :: 0 <= j < |s| ==> !IsSpace(s[j])
    ensures HasLong(TrimmedPiece(s))
  {
    TrimTrims(s);
    assert TrimmedPiece(s)[0] == s;
  }

  lemma LabelTooLong(t: string, i: nat)
    requires IsPatternText(t) && i + 64 <= |t| && !HasDot(t, i)
    ensures exists part :: part in SplitByAnyOf(t, ".") && |part| > 63
  {
    forall j, n | 0 <= j <= n <= |t| && n - j > 63
      ensures HasLong(TrimmedPiece(t[j..n]))
    {
      LongPiece(t[j..n]);
    }
    LongLabel(TrimmedPiece, t, 0, i);
  }

  lemma FittingPattern(t: string)
    requires IsPatternText(t)
    ensures IsAccepted(t) <==> Fits(t)
  {
    if ShortLabels(t) {
      LabelsFit(t);
    } else {
      var i :| 0 <= i <= |t| - 64 && !HasDot(t, i);
      LabelTooLong(t, i);
    }
  }

  /** A line has a rule only if its pattern fits and its modifiers are good; and it has one then, if it is for cancelling
      another one or compared as a name. */
  lemma LinesWithARule(env: Env, x: Line)
    requires IsLine(x)
    ensures Parse(env, Written(x)).Some? ==> Fits(x.pattern) && GoodModifiers(x.words, NO_PROPS)
    ensures Fits(x.pattern) && GoodModifiers(x.words, NO_PROPS) &&
            ("badfilter" in x.words || ('*' !in x.pattern && x.stop != "" && (x.anchor != "" || x.scheme != ""))) ==>
              Parse(env, Written(x)).Some?
  {
    LineIsParsed(env, x);
    FittingPattern(x.pattern);
    RuleIsMade(env, Written(x), GoodModifiers(x.words, NO_PROPS), PropsOf(x), InfoOf(x));
  }

  lemma RuleIsMade(env: Env, s: string, good: bool, props: Props, info: MatchInfo)
    ensures RuleWith(env, s, good, props, info).Some? ==> IsAccepted(info.text) && good
    ensures IsAccepted(info.text) && good && props.badfilter ==> RuleWith(env, s, good, props, info).Some?
    ensures IsAccepted(info.text) && good && !info.isRegex && '*' !in info.text &&
            (info.mode == Mode(true, true, false) || info.mode == Mode(false, true, true)) ==>
              RuleWith(env, s, good, props, info).Some?
  {
  }

  // ----- modifiers of any line --------------------------------------------------------------------------------

  /** The words behind the last `$`, unless the pattern is between slashes. */
  function ModifierWords(line: string): seq<string> {
    var t := if StartsWith(line, "@@") then line[2..] else line;
    if |t| > 1 && t[0] == '/' && t[|t| - 1] == '/' then []
    else if RSplit2(t, '$').1 == "" then []
    else SplitByAnyOf(RSplit2(t, '$').1, ",")
  }

  /** Any rule that is made from a pattern has the properties that its text says. */
  lemma PatternProps(env: Env, line: string)
    requires Trimmed(line) && Parse(env, line).Some? && Parse(env, line).value.pub.ip.None? && !IsDomainName(env, line)
    ensures var props := Parse(env, line).value.pub.props;
            && (props.exception <==> StartsWith(line, "@@"))
            && (props.important <==> "important" in ModifierWords(line))
            && (props.badfilter <==> "badfilter" in ModifierWords(line))
  {
    TrimTrims(line);
    NotHosts(env, line);
    ModifiersMeaning(ModifierWords(line), NO_PROPS.(exception := StartsWith(line, "@@")));
    PropsFrom(env, line);
  }

  lemma NotHosts(env: Env, line: string)
    requires Trim(line) == line && Parse(env, line).Some? && Parse(env, line).value.pub.ip.None? && !IsDomainName(env, line)
    ensures Parse(env, line) == ParsePattern(env, line, line)
  {
  }

  lemma PropsFrom(env: Env, line: string)
    requires ParsePattern(env, line, line).Some?
    ensures ExtractModifiers(ModifierWords(line), NO_PROPS.(exception := StartsWith(line, "@@"))) ==
            Some(ParsePattern(env, line, line).value.pub.props)
  {
  }
}
