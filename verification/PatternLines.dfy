/** What lines of a rule list on patterns find, said on their texts: words and wildcards, with an assertion of the start or
    the end or without one (dnsfilter/src/rule_utils.cpp, dnsfilter/src/filter.cpp). */
module PatternLines {
  import opened Text
  import opened Lines
  import opened RuleSyntax
  import opened RuleText
  import opened Shortcuts
  import opened ShortcutOrder
  import opened FilterSpec
  import opened FilterIndex
  import opened FilterMeaning
  import opened RegexOnlyRules
  import opened WildcardRules
  import opened DomainRules

  // ----- what a pattern without wildcards accepts -------------------------------------------------------------

  lemma {:induction false} LiteralMatches(items: seq<Item>, o: nat, w: string, i: nat, host: string, p: nat)
    requires ItemsAt(items, o, w) && IsLiteral(w) && i <= |w| && OccursAt(host, ToLower(w), p)
    requires MatchAt(items, o + |w|, host, p + |w|)
    ensures MatchAt(items, o + i, host, p + i)
    decreases |w| - i
  {
    if i < |w| {
      LiteralMatches(items, o, w, i + 1, host, p);
      assert host[p + i] == host[p..p + |w|][i] == ToLower(w)[i];
      assert items[o + i] == ItemOf(w[i]);
      LowerTwice(w[i]);
    }
  }

  /** The text of a pattern and the end it asserts, from position `p` on. */
  ghost predicate StandsAt(info: MatchInfo, host: string, p: nat) {
    OccursAt(host, ToLower(info.text), p) && (info.mode.lineEnd ==> p + |info.text| == |host|)
  }

  lemma TailItems(info: MatchInfo)
    ensures var items, o, n := InfoItems(info), |StartItems(info.mode)|, |info.text|;
            && ItemsAt(items, o, info.text) && |items| == o + n + (if info.mode.lineEnd then 1 else 0)
            && (info.mode.lineEnd ==> items[o + n] == Item.LineEnd)
  {
  }

  lemma EndMatches(items: seq<Item>, k: nat, host: string, p: nat, lineEnd: bool)
    requires k <= |items| && |items| == k + (if lineEnd then 1 else 0) && (lineEnd ==> items[k] == Item.LineEnd)
    requires p <= |host| && '\n' !in host
    ensures MatchAt(items, k, host, p) <==> (lineEnd ==> p == |host|)
  {
  }

  lemma TextMatches(info: MatchInfo, host: string, p: nat)
    requires IsLiteral(info.text) && info.text != "" && IsLower(host) && '\n' !in host
    ensures MatchAt(InfoItems(info), |StartItems(info.mode)|, host, p) <==> StandsAt(info, host, p)
  {
    if MatchAt(InfoItems(info), |StartItems(info.mode)|, host, p) {
      MatchedStands(info, host, p);
    }
    if StandsAt(info, host, p) {
      StandingMatches(info, host, p);
    }
  }

  lemma MatchedStands(info: MatchInfo, host: string, p: nat)
    requires IsLiteral(info.text) && info.text != "" && IsLower(host) && '\n' !in host
    requires MatchAt(InfoItems(info), |StartItems(info.mode)|, host, p)
    ensures StandsAt(info, host, p)
  {
    var items, o, n := InfoItems(info), |StartItems(info.mode)|, |info.text|;
    TailItems(info);
    LiteralRun(items, o, info.text, 0, n, host, p);
    assert info.text[0..n] == info.text;
    EndMatches(items, o + n, host, p + n, info.mode.lineEnd);
  }

  lemma StandingMatches(info: MatchInfo, host: string, p: nat)
    requires IsLiteral(info.text) && '\n' !in host && StandsAt(info, host, p)
    ensures MatchAt(InfoItems(info), |StartItems(info.mode)|, host, p)
  {
    var items, o, n := InfoItems(info), |StartItems(info.mode)|, |info.text|;
    TailItems(info);
    EndMatches(items, o + n, host, p + n, info.mode.lineEnd);
    LiteralMatches(items, o, info.text, 0, host, p);
  }

  /** Where the pattern may begin: at the start of the name, there or behind a dot, or anywhere. */
  predicate MayStart(mode: Mode, host: string, p: nat) {
    if mode.lineStart then p == 0
    else if mode.domainStart then p == 0 || (p <= |host| && host[p - 1] == '.')
    else true
  }

  lemma StartMatches(info: MatchInfo, host: string, p: nat)
    requires '\n' !in host && p <= |host| && MayStart(info.mode, host, p)
    requires MatchAt(InfoItems(info), |StartItems(info.mode)|, host, p)
    ensures Accepts(InfoItems(info), host)
  {
    var items := InfoItems(info);
    if !info.mode.lineStart && info.mode.domainStart {
      assert items[0] == Item.LineStart && items[1] == OptSubdomain;
      if p > 0 {
        assert NoNewline(host, 0, p - 1);
      }
      assert MatchAt(items, 1, host, 0);
      assert MatchAt(items, 0, host, 0);
    } else if info.mode.lineStart {
      assert items[0] == Item.LineStart;
      assert MatchAt(items, 0, host, 0);
    }
  }

  lemma MatchStarts(info: MatchInfo, host: string) returns (p: nat)
    requires Accepts(InfoItems(info), host)
    ensures p <= |host| && MayStart(info.mode, host, p) && MatchAt(InfoItems(info), |StartItems(info.mode)|, host, p)
  {
    var items := InfoItems(info);
    p :| p <= |host| && MatchAt(items, 0, host, p);
    if !info.mode.lineStart && info.mode.domainStart {
      assert items[0] == Item.LineStart && items[1] == OptSubdomain;
      assert MatchAt(items, 1, host, 0);
      p := AfterStart(items, host);
    } else if info.mode.lineStart {
      assert items[0] == Item.LineStart;
    }
  }

  /** A pattern without wildcards accepts a name exactly when its text stands in it where it may begin, and at the end if it
      asserts that. */
  lemma LiteralAccepts(info: MatchInfo, host: string)
    requires IsLiteral(info.text) && info.text != "" && IsLower(host) && '\n' !in host
    ensures Accepts(InfoItems(info), host) <==> exists p: nat :: MayStart(info.mode, host, p) && StandsAt(info, host, p)
  {
    if Accepts(InfoItems(info), host) {
      var p := MatchStarts(info, host);
      TextMatches(info, host, p);
    }
    if p: nat :| MayStart(info.mode, host, p) && StandsAt(info, host, p) {
      TextMatches(info, host, p);
      StartMatches(info, host, p);
    }
  }

  // ----- lines that become regular expressions ----------------------------------------------------------------

  /** The line asserts something, and is none of those that are compared as names. */
  predicate IsAnchored(env: Env, x: Line) {
    var mode := InfoOf(x).mode;
    && mode != Mode(false, false, false)
    && (mode == Mode(true, true, false) ==> '*' in x.pattern && env.numericHost(x.pattern).None?)
    && (mode == Mode(false, true, true) ==> '*' in x.pattern)
  }

  lemma ChoosesRegex(env: Env, x: Line)
    requires IsAnchored(env, x) && IsPatternText(x.pattern)
    ensures var m := ChooseMethod(env, InfoOf(x)).0; m.Regex? || m.ShortcutsAndRegex?
  {
  }

  lemma RegexIsThere(env: Env, s: string, props: Props, info: MatchInfo)
    requires IsAccepted(info.text) && !props.badfilter && env.validRegex(GetRegex(s))
    ensures RuleWith(env, s, true, props, info) ==
            Some(ParsedRule(Rule(s, props, None), ChooseMethod(env, info).0, ChooseMethod(env, info).1))
  {
  }

  lemma LineInfo(x: Line)
    requires IsLine(x)
    ensures PatternInfo(Written(x)) == InfoOf(x)
  {
    PartsOfLine(x);
    BodyInfo(x.anchor, x.scheme, x.pattern, x.stop);
  }

  lemma AnchoredIsPatternRule(env: Env, x: Line)
    requires IsLine(x) && IsAnchored(env, x) && AtMostImportant(x.words)
    requires !IsTooWide(x.pattern) && IsValidDomainPattern(x.pattern) && env.validRegex(GetRegex(Written(x)))
    ensures IsPatternRule(env, Written(x)) && Trimmed(Written(x)) && PatternInfo(Written(x)) == InfoOf(x)
    ensures Parse(env, Written(x)).value.pub.text == Written(x)
  {
    LineIsPattern(env, x);
    LineIsParsed(env, x);
    LineInfo(x);
    ImportantIsGood(x.words);
    ChoosesRegex(env, x);
    RegexIsThere(env, Written(x), PropsOf(x), InfoOf(x));
    DomainPatternsArePlain(x.pattern);
  }

  /** A line on a pattern that asserts something is found exactly for the lower-case names that the pattern accepts. */
  lemma AnchoredLineMeaning(env: Env, x: Line, lines: seq<Reported>, k: nat, host: string)
    requires LibraryFacts(env) && IsLine(x) && IsAnchored(env, x) && AtMostImportant(x.words) && IsLower(host)
    requires !IsTooWide(x.pattern) && IsValidDomainPattern(x.pattern) && env.validRegex(GetRegex(Written(x)))
    requires (forall i :: 0 <= i < |lines| ==> Trimmed(lines[i].1)) && k < |lines| && lines[k].1 == Written(x)
    ensures Written(x) in FoundByScan(MatcherOf(env), lines, host) <==> Accepts(InfoItems(InfoOf(x)), host)
  {
    AnchoredIsPatternRule(env, x);
    PatternRuleMeaning(env, Written(x), host);
    FoundInList(env, lines, k, host);
  }

  // ----- `|word`, `||word` and `word|` ------------------------------------------------------------------------

  /** Without a wildcard: `|text` is found for the names that start with it, `||text` for those and the ones in which it stands
      behind a dot, `text^` for those that end in it. */
  lemma WordLineMeaning(env: Env, x: Line, lines: seq<Reported>, k: nat, host: string)
    requires LibraryFacts(env) && IsLine(x) && AtMostImportant(x.words) && IsHostName(x.pattern)
    requires env.validRegex(GetRegex(Written(x))) && IsLower(host) && '\n' !in host && x.scheme == ""
    requires (forall i :: 0 <= i < |lines| ==> Trimmed(lines[i].1)) && k < |lines| && lines[k].1 == Written(x)
    ensures var w, found := ToLower(x.pattern), Written(x) in FoundByScan(MatcherOf(env), lines, host);
            && (x.anchor == "|" && x.stop == "" ==> (found <==> StartsWith(host, w)))
            && (x.anchor == "||" && x.stop == "" ==>
                  (found <==> StartsWith(host, w) || exists q: nat :: OccursAt(host, "." + w, q)))
            && (x.anchor == "" && x.stop != "" ==> (found <==> EndsWith(host, w)))
  {
    if (x.anchor == "") != (x.stop == "") {
      WordLineIsFound(env, x, lines, k, host);
      WordPlaces(x, host, Written(x) in FoundByScan(MatcherOf(env), lines, host));
    }
  }

  lemma WordPlaces(x: Line, host: string, found: bool)
    requires x.pattern != "" && x.scheme == ""
    requires found <==> exists p: nat :: MayStart(InfoOf(x).mode, host, p) && StandsAt(InfoOf(x), host, p)
    ensures var w := ToLower(x.pattern);
            && (x.anchor == "|" && x.stop == "" ==> (found <==> StartsWith(host, w)))
            && (x.anchor == "||" && x.stop == "" ==>
                  (found <==> StartsWith(host, w) || exists q: nat :: OccursAt(host, "." + w, q)))
            && (x.anchor == "" && x.stop != "" ==> (found <==> EndsWith(host, w)))
  {
    StandingPlaces(InfoOf(x), host);
  }

  lemma WordLineIsFound(env: Env, x: Line, lines: seq<Reported>, k: nat, host: string)
    requires LibraryFacts(env) && IsLine(x) && AtMostImportant(x.words) && IsHostName(x.pattern)
    requires (x.anchor == "") != (x.stop == "") && x.scheme == ""
    requires env.validRegex(GetRegex(Written(x))) && IsLower(host) && '\n' !in host
    requires (forall i :: 0 <= i < |lines| ==> Trimmed(lines[i].1)) && k < |lines| && lines[k].1 == Written(x)
    ensures Written(x) in FoundByScan(MatcherOf(env), lines, host) <==>
            exists p: nat :: MayStart(InfoOf(x).mode, host, p) && StandsAt(InfoOf(x), host, p)
  {
    HostNameIsPattern(x.pattern);
    AnchoredLineMeaning(env, x, lines, k, host);
    LiteralAccepts(InfoOf(x), host);
  }

  lemma StandingPlaces(info: MatchInfo, host: string)
    requires info.text != ""
    ensures var w, mode := ToLower(info.text), info.mode;
            var found := exists p: nat :: MayStart(mode, host, p) && StandsAt(info, host, p);
            && (mode == Mode(true, false, false) ==> (found <==> StartsWith(host, w)))
            && (mode == Mode(false, true, false) ==> (found <==> EndsWith(host, w)))
            && (mode == Mode(false, false, true) ==>
                  (found <==> StartsWith(host, w) || exists q: nat :: OccursAt(host, "." + w, q)))
  {
    var w, mode := ToLower(info.text), info.mode;
    if mode == Mode(true, false, false) {
      AtStart(host, w);
      assert StandsAt(info, host, 0) <==> StartsWith(host, w);
    } else if mode == Mode(false, true, false) {
      EndPlace(info, host, w);
    } else if mode == Mode(false, false, true) {
      DotPlace(info, host, w);
    }
  }

  lemma AtStart(host: string, w: string)
    ensures OccursAt(host, w, 0) <==> StartsWith(host, w)
  {
    if |host| >= |w| {
      assert host[0..|w|] == host[..|w|];
    }
  }

  lemma EndPlace(info: MatchInfo, host: string, w: string)
    requires info.mode == Mode(false, true, false) && w == ToLower(info.text)
    ensures (exists p: nat :: MayStart(info.mode, host, p) && StandsAt(info, host, p)) <==> EndsWith(host, w)
  {
    if EndsWith(host, w) {
      var p := |host| - |w|;
      assert host[p..p + |w|] == host[p..];
      assert MayStart(info.mode, host, p) && StandsAt(info, host, p);
    }
    if p: nat :| MayStart(info.mode, host, p) && StandsAt(info, host, p) {
      assert host[p..p + |w|] == host[p..];
    }
  }

  lemma BehindDot(host: string, w: string, q: nat)
    ensures OccursAt(host, "." + w, q) <==> q < |host| && host[q] == '.' && OccursAt(host, w, q + 1)
  {
    if q + 1 + |w| <= |host| {
      assert host[q..q + |"." + w|] == [host[q]] + host[q + 1..q + 1 + |w|];
      assert ("." + w)[0] == '.' && ("." + w)[1..] == w;
    }
  }

  lemma DotPlace(info: MatchInfo, host: string, w: string)
    requires info.mode == Mode(false, false, true) && w == ToLower(info.text)
    ensures (exists p: nat :: MayStart(info.mode, host, p) && StandsAt(info, host, p)) <==>
            StartsWith(host, w) || exists q: nat :: OccursAt(host, "." + w, q)
  {
    AtStart(host, w);
    if p: nat :| MayStart(info.mode, host, p) && StandsAt(info, host, p) {
      if p > 0 {
        BehindDot(host, w, p - 1);
      }
    }
    if StartsWith(host, w) {
      assert MayStart(info.mode, host, 0) && StandsAt(info, host, 0);
    }
    if q: nat :| OccursAt(host, "." + w, q) {
      BehindDot(host, w, q);
      assert MayStart(info.mode, host, q + 1) && StandsAt(info, host, q + 1);
    }
  }

  // ----- lines that assert nothing ----------------------------------------------------------------------------

  /** A line of pattern characters that is no domain name: it has a wildcard or no dot, or a dot at one end, or is an
      address. */
  lemma UnanchoredIsParsed(env: Env, t: string)
    requires IsPatternText(t) && IsAccepted(t) && !IsDomainName(env, t)
    ensures Trimmed(t) && PatternInfo(t) == MatchInfo(t, false, Mode(false, false, false))
    ensures Parse(env, t) == Some(ParsedRule(Rule(t, NO_PROPS, None), Shortcuts, LowerAll(SplitByAnyOf(t, "*"))))
  {
    BareBody(t);
    BodyInfo("", "", t, "");
    UnanchoredParts(t);
    ParsedUnanchored(env, t, MatchInfo(t, false, Mode(false, false, false)));
  }

  lemma BareBody(t: string)
    requires IsPatternText(t)
    ensures t == Body("", "", t, "") && IsBody("", "", t, "")
  {
    OneMark("");
  }

  lemma UnanchoredParts(t: string)
    requires IsPatternText(t)
    ensures PatternPart(t) == (t, "") && !StartsWith(t, "@@") && t[0] != '!' && t[0] != '#'
    ensures forall i :: 0 <= i < |t| ==> !IsSpace(t[i])
  {
    NotAtFirst(t, "@@", 0);
    NoOccurrence(t, '$');
  }

  lemma ParsedUnanchored(env: Env, t: string, info: MatchInfo)
    requires IsPatternText(t) && IsAccepted(t) && !IsDomainName(env, t)
    requires info == MatchInfo(t, false, Mode(false, false, false))
    requires PatternPart(t) == (t, "") && !StartsWith(t, "@@") && t[0] != '!' && t[0] != '#' && ExtractMatchInfo(t) == info
    requires forall i :: 0 <= i < |t| ==> !IsSpace(t[i])
    ensures Trimmed(t)
    ensures Parse(env, t) == Some(ParsedRule(Rule(t, NO_PROPS, None), Shortcuts, LowerAll(SplitByAnyOf(t, "*"))))
  {
    ReadAsPattern(env, t);
    ChoosesPieces(env, t);
    ParsedFrom(env, t, t, "", [], info, NO_PROPS, true);
  }

  lemma ReadAsPattern(env: Env, t: string)
    requires t != "" && !IsDomainName(env, t) && t[0] != '!' && t[0] != '#' && forall i :: 0 <= i < |t| ==> !IsSpace(t[i])
    ensures Trimmed(t) && Parse(env, t) == ParsePattern(env, t, t)
  {
    TrimTrims(t);
    BlankFree(t);
  }

  lemma ChoosesPieces(env: Env, t: string)
    ensures ChooseMethod(env, MatchInfo(t, false, Mode(false, false, false))) == (Shortcuts, LowerAll(SplitByAnyOf(t, "*")))
  {
  }

  /** A word alone on a line, without dots and wildcards, is found exactly for the names that contain it. */
  lemma WordAloneMeaning(env: Env, w: string, lines: seq<Reported>, k: nat, host: string)
    requires IsHostName(w) && '.' !in w
    requires (forall i :: 0 <= i < |lines| ==> Trimmed(lines[i].1)) && k < |lines| && lines[k].1 == w
    ensures w in FoundByScan(MatcherOf(env), lines, host) <==> exists p :: OccursAt(host, ToLower(w), p)
  {
    HostNameIsPattern(w);
    UnanchoredIsParsed(env, w);
    WordIsOnePiece(w);
    IndexAcceptsPieces(MatcherOf(env), w, host);
    OnePieceIsFound(ToLower(w), host);
    FoundInList(env, lines, k, host);
  }

  lemma WordIsOnePiece(w: string)
    requires IsHostName(w)
    ensures LowerAll(SplitByAnyOf(w, "*")) == [ToLower(w)]
  {
    var delims := "*";
    assert forall c :: c in delims ==> c == '*';
    SplitWithoutDelimiters(w, delims);
  }

  lemma OnePieceIsFound(w: string, host: string)
    ensures MatchShortcuts([w], host) <==> exists p :: OccursAt(host, w, p)
  {
    OnePieceIsInOrder(w, host);
    var parts := [w];
    assert parts[1..] == [];
    if InOrder(parts, host, 0) {
      var q: nat :| OccursAt(host, parts[0], q) && InOrder(parts[1..], host, q + |parts[0]|);
    }
    if p :| OccursAt(host, w, p) {
      assert InOrder(parts[1..], host, p + |parts[0]|);
      assert 0 <= p && OccursAt(host, parts[0], p);
    }
  }

  /** A line of pieces and wildcards is found for every lower-case name that the pattern accepts, and for no other exactly when
      it has one piece. */
  lemma WildcardLineMeaning(env: Env, t: string)
    requires IsPatternText(t) && IsAccepted(t) && !IsDomainName(env, t)
    ensures forall host :: IsLower(host) && Accepts(PatternItems(t), host) ==> IndexAccepts(MatcherOf(env), t, host)
    ensures (forall host :: IsLower(host) ==> (IndexAccepts(MatcherOf(env), t, host) <==> Accepts(PatternItems(t), host))) <==>
            |SplitByAnyOf(t, "*")| == 1
  {
    UnanchoredIsParsed(env, t);
    WildcardRuleMeaning(env, t);
  }

  // ----- regular expressions ----------------------------------------------------------------------------------

  /** A line between slashes, with or without an exception marker. */
  function RegexLine(exception: bool, re: string): string {
    (if exception then "@@" else "") + ("/" + re + "/")
  }

  ghost predicate IsRegexText(re: string) {
    re != "" && !IsTooWide(re) && forall i :: 0 <= i < |re| ==> !IsSpace(re[i])
  }

  lemma RegexParts(exception: bool, re: string)
    requires IsRegexText(re)
    ensures var s := RegexLine(exception, re);
            && PatternPart(s) == ("/" + re + "/", "") && (StartsWith(s, "@@") <==> exception)
            && ExtractMatchInfo("/" + re + "/") == MatchInfo(re, true, Mode(false, false, false))
  {
    var s, t := RegexLine(exception, re), "/" + re + "/";
    assert t[0] == '/' && t[|t| - 1] == '/' && t[1..|t| - 1] == re;
    if exception {
      assert s[..2] == "@@" && s[2..] == t;
    } else {
      assert s == t;
      NotAtFirst(s, "@@", 0);
    }
  }

  lemma RegexLineIsPattern(env: Env, exception: bool, re: string)
    requires IsRegexText(re)
    ensures var s := RegexLine(exception, re); Trimmed(s) && Parse(env, s) == ParsePattern(env, s, s) && GetRegex(s) == re
  {
    var s := RegexLine(exception, re);
    RegexParts(exception, re);
    RegexChars(exception, re);
    assert !IsDomainChar('/');
    NothingElse(env, s);
    RegexIsOfThePattern(s);
  }

  lemma RegexChars(exception: bool, re: string)
    requires IsRegexText(re)
    ensures var s := RegexLine(exception, re);
            && s != "" && (forall i :: 0 <= i < |s| ==> !IsSpace(s[i])) && s[0] != '!' && s[0] != '#'
            && exists i :: 0 <= i < |s| && !IsDomainChar(s[i])
  {
    var s, k := RegexLine(exception, re), if exception then 2 else 0;
    assert s[|s| - 1] == '/';
    forall i | 0 <= i < |s|
      ensures !IsSpace(s[i])
    {
      if k < i < |s| - 1 {
        assert s[i] == re[i - k - 1];
      }
    }
  }

  lemma RegexLineIsParsed(env: Env, exception: bool, re: string)
    requires IsRegexText(re)
    ensures var s, info := RegexLine(exception, re), MatchInfo(re, true, Mode(false, false, false));
            var (m, parts) := ChooseMethod(env, info);
            && (m.Regex? || m.ShortcutsAndRegex?)
            && Parse(env, s) ==
               if env.validRegex(re) then Some(ParsedRule(Rule(s, Props(exception, false, false), None), m, parts)) else None
  {
    RegexParts(exception, re);
    RegexLineIsPattern(env, exception, re);
    ChoosesSomeRegex(env, re);
    RegexFrom(env, RegexLine(exception, re), "/" + re + "/", re, exception);
  }

  lemma ChoosesSomeRegex(env: Env, re: string)
    ensures var (m, parts) := ChooseMethod(env, MatchInfo(re, true, Mode(false, false, false)));
            (m.Regex? || m.ShortcutsAndRegex?) && ('?' in re ==> m.Regex? && parts == [])
  {
  }

  lemma RegexFrom(env: Env, s: string, body: string, re: string, exception: bool)
    requires PatternPart(s) == (body, "") && (StartsWith(s, "@@") <==> exception) && GetRegex(s) == re
    requires ExtractMatchInfo(body) == MatchInfo(re, true, Mode(false, false, false)) && re != "" && !IsTooWide(re)
    requires var m := ChooseMethod(env, MatchInfo(re, true, Mode(false, false, false))).0; m.Regex? || m.ShortcutsAndRegex?
    ensures var (m, parts) := ChooseMethod(env, MatchInfo(re, true, Mode(false, false, false)));
            ParsePattern(env, s, s) ==
            if env.validRegex(re) then Some(ParsedRule(Rule(s, Props(exception, false, false), None), m, parts)) else None
  {
    assert ExtractModifiers([], NO_PROPS.(exception := exception)) == Some(Props(exception, false, false));
  }

  /** It is found only for names that the library lets the expression match, and if a question mark leaves it without pieces
      to look for, for all of them. */
  lemma RegexLineMeaning(env: Env, exception: bool, re: string, lines: seq<Reported>, k: nat, host: string)
    requires IsRegexText(re) && env.validRegex(re)
    requires (forall i :: 0 <= i < |lines| ==> Trimmed(lines[i].1)) && k < |lines| && lines[k].1 == RegexLine(exception, re)
    ensures var found := RegexLine(exception, re) in FoundByScan(MatcherOf(env), lines, host);
            (found ==> env.regexMatches(re, host)) && ('?' in re ==> (found <==> env.regexMatches(re, host)))
  {
    var s := RegexLine(exception, re);
    RegexLineIsParsed(env, exception, re);
    RegexLineIsPattern(env, exception, re);
    ChoosesSomeRegex(env, re);
    FoundInList(env, lines, k, host);
    RegexAccepts(MatcherOf(env), s, re, host);
  }

  lemma RegexAccepts(m: Matcher, line: string, re: string, host: string)
    requires m.parse(line).Some? && m.parse(line).value.pub.text == line && m.regexOf(line) == re
    requires m.parse(line).value.method_.Regex? || m.parse(line).value.method_.ShortcutsAndRegex?
    requires !m.parse(line).value.pub.props.badfilter
    ensures IndexAccepts(m, line, host) ==> m.regexMatches(re, host)
    ensures m.parse(line).value.method_.Regex? && m.parse(line).value.parts == [] ==>
              (IndexAccepts(m, line, host) <==> m.regexMatches(re, host))
  {
    assert SubdomainsOf(host)[0] == host;
  }
}
