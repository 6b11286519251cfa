/** A family of rules on which the filter and a plain scan differ: a single word asserted to stand at
    the start of a line, `|word`. Such a rule is a regular expression only. The comparison tries it on
    every subdomain of the host, but its leftover entry is tried on the full host first. */
module LostRules {
  import opened Text
  import opened RuleSyntax
  import opened RuleText
  import opened Shortcuts
  import opened FilterSpec
  import opened FilterMeaning
  import opened RegexOnlyRules

  predicate IsWord(w: string) {
    0 < |w| <= MAX_LABEL_LENGTH && forall i :: 0 <= i < |w| ==> IsAlpha(w[i]) || IsDigit(w[i]) || w[i] == '-' || w[i] == '_'
  }

  function RuleFor(w: string): string {
    "|" + w
  }

  lemma WordIsTrimmed(w: string)
    requires IsWord(w)
    ensures Trimmed(w) && Trimmed(RuleFor(w)) && Trim(RuleFor(w)) == RuleFor(w)
    ensures SplitByAnyOf(w, ".") == [w] && SplitByAnyOf(RuleFor(w), " \t") == [RuleFor(w)]
  {
    TrimTrims(RuleFor(w));
    SplitWithoutDelimiters(w, ".");
    SplitWithoutDelimiters(RuleFor(w), " \t");
  }

  lemma WordInfo(w: string)
    requires IsWord(w)
    ensures PatternPart(RuleFor(w)) == (RuleFor(w), "")
    ensures ExtractMatchInfo(RuleFor(w)) == MatchInfo(w, false, Mode(true, false, false))
  {
    WordBody(w);
    BodyInfo("|", "", w, "");
    WordHasNoModifiers(w);
  }

  lemma WordBody(w: string)
    requires IsWord(w)
    ensures RuleFor(w) == Body("|", "", w, "") && IsBody("|", "", w, "")
  {
    OneMark("");
  }

  lemma WordHasNoModifiers(w: string)
    requires IsWord(w)
    ensures PatternPart(RuleFor(w)) == (RuleFor(w), "")
  {
    assert RuleFor(w)[0] == '|';
    NoOccurrence(RuleFor(w), '$');
  }

  lemma WordMethod(env: Env, w: string)
    requires IsWord(w) && env.stripGroups(w) == w
    ensures ChooseMethod(env, MatchInfo(w, false, Mode(true, false, false))) == (Regex, [ToLower(w)])
  {
    assert RunEnd(w, 0) == |w|;
    assert RegexShortcuts(w, 0) == [w[0..|w|]];
  }

  lemma WordIsPattern(w: string)
    requires IsWord(w)
    ensures !IsTooWide(w) && IsValidDomainPattern(w) && !StartsWith(RuleFor(w), "@@")
  {
    WordIsTrimmed(w);
    assert w[0] != '.' && w[0] != '*';
    assert RuleFor(w)[0] == '|';
  }

  lemma WordPattern(env: Env, w: string)
    requires IsWord(w) && env.stripGroups(w) == w && env.validRegex(GetRegex(RuleFor(w)))
    ensures ParsePattern(env, RuleFor(w), RuleFor(w))
            == Some(ParsedRule(Rule(RuleFor(w), NO_PROPS, None), Regex, [ToLower(w)]))
  {
    WordInfo(w);
    WordMethod(env, w);
    WordIsPattern(w);
  }

  /** `|word` is parsed as a regular expression only. */
  lemma WordRule(env: Env, w: string)
    requires IsWord(w) && env.stripGroups(w) == w && env.validRegex(GetRegex(RuleFor(w)))
    ensures Parse(env, RuleFor(w)) == Some(ParsedRule(Rule(RuleFor(w), NO_PROPS, None), Regex, [ToLower(w)]))
  {
    WordPattern(env, w);
    WordIsTrimmed(w);
    ParsedAsPattern(env, RuleFor(w));
  }

  lemma ParsedAsPattern(env: Env, s: string)
    requires s != "" && s[0] == '|' && '.' !in s && Trim(s) == s && |SplitByAnyOf(s, " \t")| == 1
    ensures Parse(env, s) == ParsePattern(env, s, s)
  {
  }

  // ----- what its regular expression accepts ----------------------------------------------------------

  /** The expression of `|word` accepts exactly the names that start with the word. */
  lemma WordAccepts(w: string, s: string)
    requires IsWord(w) && IsLower(s)
    ensures Accepts(InfoItems(MatchInfo(w, false, Mode(true, false, false))), s) <==> StartsWith(s, ToLower(w))
  {
    AnchoredAccepts(MatchInfo(w, false, Mode(true, false, false)), s);
  }

  lemma {:induction false} SubdomainsAreLower(s: string, d: string)
    requires IsLower(s) && d in SubdomainsOf(s)
    ensures IsLower(d)
    decreases |s|
  {
    if d != s {
      DotsAfterSplit(s);
      var t := Split2(s, '.').1;
      var f := FirstDot(s);
      assert forall i :: 0 <= i < |t| ==> t[i] == s[f + 1 + i];
      SubdomainsAreLower(t, d);
    }
  }

  /** Whenever a proper subdomain of the host starts with the word and the host does not, a plain scan
      accepts the rule and the filter does not find it: `|example` for `sub.example.org`. */
  lemma WordRuleIsLost(env: Env, w: string, host: string, d: string)
    requires LibraryFacts(env) && IsWord(w) && env.validRegex(GetRegex(RuleFor(w)))
    requires IsLower(host) && d in SubdomainsOf(host)
    requires StartsWith(d, ToLower(w)) && !StartsWith(host, ToLower(w))
    ensures LineMatches(MatcherOf(env), RuleFor(w), host)
    ensures !IndexAccepts(MatcherOf(env), RuleFor(w), host)
  {
    var m, line, info := MatcherOf(env), RuleFor(w), MatchInfo(w, false, Mode(true, false, false));
    assert IsPlainPattern(w);
    WordRule(env, w);
    WordInfo(w);
    RegexIsOfThePattern(line);
    RegexReadsAsPattern(info);
    SubdomainsAreLower(host, d);
    WordAccepts(w, d);
    WordAccepts(w, host);
    var re := RegexOf(info);
    assert GetRegex(line) == re;
    assert env.regexMatches(re, d) && !env.regexMatches(re, host);
    LostByGate(m, line, host, d);
  }

  lemma LostByGate(m: Matcher, line: string, host: string, d: string)
    requires m.parse(line).Some? && m.parse(line).value.method_.Regex?
    requires !m.parse(line).value.pub.props.badfilter && m.parse(line).value.pub.text == line
    requires d in SubdomainsOf(host) && m.regexMatches(m.regexOf(line), d)
    requires !m.regexMatches(m.regexOf(line), host)
    ensures LineMatches(m, line, host) && !IndexAccepts(m, line, host)
  {
  }
}
