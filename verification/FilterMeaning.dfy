/** What the filter's answer means, for the parser of RuleSyntax: when it is that of a plain scan of
    the rules, and what it is for each kind of rule. */
module FilterMeaning {
  import opened Text
  import opened Lines
  import opened RuleSyntax
  import opened RuleText
  import opened Shortcuts
  import opened FilterSpec
  import opened FilterIndex

  // ----- the plain scan -----------------------------------------------------------------------------

  /** The texts of the rules `match_against_line` accepts, badfilter rules aside. */
  function PlainScan(m: Matcher, lines: seq<Reported>, host: string): set<string> {
    set k | 0 <= k < |lines| && LineMatches(m, lines[k].1, host) && !IsBadfilter(m, lines[k].1)
      :: TextOf(m, lines[k].1)
  }

  predicate IsRegexRule(m: Matcher, line: string) {
    m.parse(line).Some? && m.parse(line).value.method_.Regex?
  }

  /** A rule that is a regular expression only keeps its line as its text, and no other line has it. */
  ghost predicate RegexTextsAreOwn(m: Matcher) {
    && (forall line :: IsRegexRule(m, line) ==> m.parse(line).value.pub.text == line && !IsBadfilter(m, line))
    && (forall line :: Trimmed(line) && m.parse(line).Some? && m.parse(line).value.pub.text != line
          ==> !IsRegexRule(m, m.parse(line).value.pub.text))
  }

  lemma MatcherKeepsRegexTexts(env: Env)
    ensures RegexTextsAreOwn(MatcherOf(env))
  {
    var m := MatcherOf(env);
    forall line | IsRegexRule(m, line)
      ensures m.parse(line).value.pub.text == line && !IsBadfilter(m, line)
    {
      ParsedRegexRule(env, line);
    }
    forall line | Trimmed(line) && m.parse(line).Some? && m.parse(line).value.pub.text != line
      ensures !IsRegexRule(m, m.parse(line).value.pub.text)
    {
      RuleTexts(env, line);
      HostTextIsNoRegex(env, line);
    }
  }

  lemma ParsedRegexRule(env: Env, line: string)
    requires Parse(env, line).Some? && Parse(env, line).value.method_.Regex?
    ensures Parse(env, line).value.pub.text == line && !Parse(env, line).value.pub.props.badfilter
  {
  }

  lemma HostTextIsNoRegex(env: Env, line: string)
    requires Trimmed(line) && Parse(env, line).Some? && Parse(env, line).value.pub.text != line
    ensures var again := Parse(env, Parse(env, line).value.pub.text); again.Some? ==> !again.value.method_.Regex?
  {
    TextParsesAlike(env, line);
    RuleTexts(env, line);
    HostsRulesArePlain(env, line);
  }

  lemma LinesAreTrimmed(src: Source, k: nat)
    requires k < |ReportedLines(src)|
    ensures Trimmed(ReportedLines(src)[k].1)
  {
    ReadsBack(src, k);
    ReadsTrimmed(src, ReportedLines(src)[k].0);
  }

  /** A rule that the gate rejects is found in no list: no other line has its text. */
  lemma LostInList(m: Matcher, line: string, lines: seq<Reported>, host: string)
    requires RegexTextsAreOwn(m) && forall i :: 0 <= i < |lines| ==> Trimmed(lines[i].1)
    requires IsRegexRule(m, line) && !PassesGate(m, m.parse(line).value, host)
    ensures line !in FoundByScan(m, lines, host)
  {
    forall j | 0 <= j < |lines| && IndexAccepts(m, lines[j].1, host)
      ensures TextOf(m, lines[j].1) != line
    {
      if lines[j].1 != line {
        assert TextOf(m, lines[j].1) == line ==> !IsRegexRule(m, line);
      }
    }
  }

  lemma LostRegexRule(m: Matcher, lines: seq<Reported>, host: string, k: nat)
    requires RegexTextsAreOwn(m) && forall i :: 0 <= i < |lines| ==> Trimmed(lines[i].1)
    requires k < |lines| && IsRegexRule(m, lines[k].1) && LineMatches(m, lines[k].1, host)
    requires !PassesGate(m, m.parse(lines[k].1).value, host)
    ensures TextOf(m, lines[k].1) == lines[k].1 && lines[k].1 in PlainScan(m, lines, host)
    ensures lines[k].1 !in FoundByScan(m, lines, host)
  {
    LostInList(m, lines[k].1, lines, host);
  }

  /** The filter finds what a plain scan of a rule list finds, exactly when every regular expression
      rule that accepts a subdomain of the host passes, on the full host, the gate of its leftover
      entry. */
  lemma FoundIsPlainScan(m: Matcher, lines: seq<Reported>, host: string)
    requires RegexTextsAreOwn(m) && forall i :: 0 <= i < |lines| ==> Trimmed(lines[i].1)
    ensures FoundByScan(m, lines, host) <= PlainScan(m, lines, host)
    ensures FoundByScan(m, lines, host) == PlainScan(m, lines, host) <==>
            (forall k :: 0 <= k < |lines| && IsRegexRule(m, lines[k].1) && LineMatches(m, lines[k].1, host)
               ==> PassesGate(m, m.parse(lines[k].1).value, host))
  {
    if k :| 0 <= k < |lines| && IsRegexRule(m, lines[k].1) && LineMatches(m, lines[k].1, host)
            && !PassesGate(m, m.parse(lines[k].1).value, host)
    {
      LostRegexRule(m, lines, host, k);
    } else {
      forall t | t in PlainScan(m, lines, host)
        ensures t in FoundByScan(m, lines, host)
      {
        var k :| 0 <= k < |lines| && LineMatches(m, lines[k].1, host) && !IsBadfilter(m, lines[k].1)
                 && t == TextOf(m, lines[k].1);
        assert IndexAccepts(m, lines[k].1, host);
      }
    }
  }

  // ----- rules on domains -----------------------------------------------------------------------------

  /** A rule on subdomains accepts a host that is one of its names, or that ends in a dot and one of its
      names, if that name has a dot of its own. */
  lemma SubdomainRuleMeaning(m: Matcher, rule: ParsedRule, host: string)
    requires rule.method_.Subdomains? && !rule.pub.props.badfilter
    ensures RuleMatches(m, rule, host) <==>
            exists i :: 0 <= i < |rule.parts| &&
              (host == rule.parts[i] || ('.' in rule.parts[i] && FollowsDot(host, rule.parts[i])))
  {
    forall i | 0 <= i < |rule.parts|
      ensures rule.parts[i] in SubdomainsOf(host) <==>
              host == rule.parts[i] || ('.' in rule.parts[i] && FollowsDot(host, rule.parts[i]))
    {
      SubdomainsMeaning(host, rule.parts[i]);
    }
  }

  // ----- rules on wildcard patterns ---------------------------------------------------------------------

  /** What is taken from the regular expression library: it reads the expressions written for plain
      patterns as Shortcuts does, and finds no group to replace in a plain pattern. */
  ghost predicate LibraryFacts(env: Env) {
    && (forall t :: IsPlainPattern(t) ==> env.stripGroups(t) == t)
    && (forall info: MatchInfo, s: string :: !info.isRegex && IsPlainPattern(info.text) ==>
          (env.regexMatches(RegexOf(info), s) <==> Accepts(Tokenize(RegexOf(info)), s)))
  }

  lemma {:induction false} PiecesExist(text: string, i: nat, j: nat)
    requires i <= j < |text| && IsPlainPattern(text) && !IsSpecial(text[j])
    ensures RegexShortcuts(text, i) != []
    decreases |text| - i
  {
    var n := RunEnd(text, i);
    if n == i {
      assert j > i;
      assert SpecialLength(text, n) == 1;
      PiecesExist(text, i + 1, j);
    }
  }

  /** A plain pattern of one piece without special characters at its ends is that piece. */
  lemma SinglePiece(text: string)
    requires text != "" && IsPlainPattern(text)
    requires !IsSpecial(text[0]) && !IsSpecial(text[|text| - 1]) && |RegexShortcuts(text, 0)| <= 1
    ensures RegexShortcuts(text, 0) == [text] && forall i :: 0 <= i < |text| ==> !IsSpecial(text[i])
  {
    var n := RunEnd(text, 0);
    if n < |text| {
      assert SpecialLength(text, n) == 1;
      PiecesExist(text, n + 1, |text| - 1);
    } else {
      assert text[0..n] == text;
    }
  }

  /** The pieces the gate looks for are those of the pattern. */
  lemma PartsArePieces(env: Env, info: MatchInfo)
    requires LibraryFacts(env) && !info.isRegex && IsPlainPattern(info.text)
    requires info.text != "" && !IsTooWide(info.text)
    requires ChooseMethod(env, info).0.Regex? || ChooseMethod(env, info).0.ShortcutsAndRegex?
    ensures ChooseMethod(env, info).1 == LowerAll(RegexShortcuts(info.text, 0))
    ensures ChooseMethod(env, info).1 != []
  {
    var text := info.text;
    var j :| 0 <= j < |text| && text[j] != '.' && text[j] != '*';
    PiecesExist(text, 0, j);
    if ChooseMethod(env, info).0.Regex? {
      SinglePiece(text);
      assert LowerAll([text]) == [ToLower(text)];
    }
  }

  /** A rule parsed from an anchored or wildcard pattern that is matched by a regular expression. */
  predicate IsPatternRule(env: Env, line: string) {
    && Parse(env, line).Some?
    && (Parse(env, line).value.method_.Regex? || Parse(env, line).value.method_.ShortcutsAndRegex?)
    && !Parse(env, line).value.pub.props.badfilter
    && !PatternInfo(line).isRegex
    && IsPlainPattern(PatternInfo(line).text)
  }

  function PatternInfo(line: string): MatchInfo {
    ExtractMatchInfo(PatternPart(line).0)
  }

  lemma PatternRuleIsParsed(env: Env, line: string)
    requires Trimmed(line) && IsPatternRule(env, line)
    ensures var rule, info := Parse(env, line).value, PatternInfo(line);
            && rule.pub.text == line
            && (rule.method_, rule.parts) == ChooseMethod(env, info)
            && info.text != "" && !IsTooWide(info.text)
  {
    TrimTrims(line);
  }

  lemma GateIsImplied(env: Env, info: MatchInfo, host: string)
    requires LibraryFacts(env) && !info.isRegex && IsPlainPattern(info.text) && IsLower(host)
    requires RegexShortcuts(info.text, 0) != []
    ensures env.regexMatches(RegexOf(info), host) <==> Accepts(InfoItems(info), host)
    ensures Accepts(InfoItems(info), host) ==> MatchShortcuts(LowerAll(RegexShortcuts(info.text, 0)), host)
  {
    RegexReadsAsPattern(info);
    if Accepts(InfoItems(info), host) {
      GateKeepsMatches(info, host);
    }
  }

  /** For a rule on an anchored or wildcard pattern, the filter's answer is that of the pattern on the
      full host: neither the shortcuts nor the comparison with subdomains change it. */
  lemma PatternRuleMeaning(env: Env, line: string, host: string)
    requires LibraryFacts(env) && Trimmed(line) && IsPatternRule(env, line) && IsLower(host)
    ensures IndexAccepts(MatcherOf(env), line, host) <==> Accepts(InfoItems(PatternInfo(line)), host)
  {
    var m, rule, info := MatcherOf(env), Parse(env, line).value, PatternInfo(line);
    PatternRuleIsParsed(env, line);
    PartsArePieces(env, info);
    GateIsImplied(env, info, host);
    RegexIsOfThePattern(line);
    assert m.parse(line).value == rule && m.regexOf(line) == RegexOf(info);
    IndexAcceptsPattern(m, line, host);
  }

  lemma IndexAcceptsPattern(m: Matcher, line: string, host: string)
    requires m.parse(line).Some?
    requires m.parse(line).value.method_.Regex? || m.parse(line).value.method_.ShortcutsAndRegex?
    requires !m.parse(line).value.pub.props.badfilter && m.parse(line).value.pub.text == line
    requires m.parse(line).value.parts != []
    requires m.regexMatches(m.regexOf(line), host) ==> MatchShortcuts(m.parse(line).value.parts, host)
    ensures IndexAccepts(m, line, host) <==> m.regexMatches(m.regexOf(line), host)
  {
    assert SubdomainsOf(host)[0] == host;
  }
}
