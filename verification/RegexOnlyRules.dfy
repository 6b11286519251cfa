/** Which rules the gate on the full host loses (dnsfilter/src/filter.cpp:488-497, 589-601), by the syntax of the rule. A rule
    of one word is a regular expression only, and is tried on every subdomain. If it asserts the end of a name, or the start
    of a domain, then what holds of a subdomain holds of the host. Only an assertion of the start of the line can be lost. */
module RegexOnlyRules {
  import opened Text
  import opened Lines
  import opened RuleSyntax
  import opened Shortcuts
  import opened FilterSpec
  import opened FilterIndex
  import opened FilterMeaning

  // ----- more text in front -------------------------------------------------------------------------------

  /** From `k` on nothing asserts a start. */
  ghost predicate NoStart(items: seq<Item>, k: nat) {
    forall j :: k <= j < |items| ==> !items[j].LineStart? && !items[j].OptSubdomain?
  }

  lemma {:induction false} MatchesBehind(items: seq<Item>, k: nat, x: string, d: string, p: nat)
    requires k <= |items| && NoStart(items, k) && MatchAt(items, k, d, p)
    ensures MatchAt(items, k, x + d, |x| + p)
    decreases |items| - k
  {
    if k < |items| {
      match items[k]
      case Lit(c) =>
        MatchesBehind(items, k + 1, x, d, p + 1);
      case AnyStar =>
        var q: nat :| p <= q <= |d| && NoNewline(d, p, q) && MatchAt(items, k + 1, d, q);
        MatchesBehind(items, k + 1, x, d, q);
        assert NoNewline(x + d, |x| + p, |x| + q);
      case LineEnd =>
        MatchesBehind(items, k + 1, x, d, p);
    }
  }

  lemma PlainItemsAssertNoStart(info: MatchInfo)
    ensures NoStart(InfoItems(info), |StartItems(info.mode)|)
  {
  }

  /** Without an assertion at the start, more text in front does no harm. */
  lemma AcceptsBehind(info: MatchInfo, x: string, d: string)
    requires !info.mode.lineStart && !info.mode.domainStart && Accepts(InfoItems(info), d)
    ensures Accepts(InfoItems(info), x + d)
  {
    var items := InfoItems(info);
    var p: nat :| p <= |d| && MatchAt(items, 0, d, p);
    PlainItemsAssertNoStart(info);
    MatchesBehind(items, 0, x, d, p);
  }

  /** With an assertion of a domain's start, neither do further labels. */
  lemma AcceptsBehindDot(info: MatchInfo, x: string, d: string)
    requires !info.mode.lineStart && info.mode.domainStart && Accepts(InfoItems(info), d)
    requires x != "" && x[|x| - 1] == '.' && '\n' !in x + d
    ensures Accepts(InfoItems(info), x + d)
  {
    var items, host := InfoItems(info), x + d;
    assert items[0] == LineStart && items[1] == OptSubdomain;
    var p: nat :| p <= |d| && MatchAt(items, 0, d, p);
    assert MatchAt(items, 1, d, 0);
    PlainItemsAssertNoStart(info);
    var r := AfterStart(items, d);
    MatchesBehind(items, 2, x, d, r);
    var q := |x| + r - 1;
    assert host[q] == '.';
    assert NoNewline(host, 0, q);
    assert MatchAt(items, 1, host, 0);
    assert MatchAt(items, 0, host, 0);
  }

  /** Where the pattern starts: at the start, or behind a dot. */
  lemma AfterStart(items: seq<Item>, d: string) returns (r: nat)
    requires |items| >= 2 && items[1] == OptSubdomain && MatchAt(items, 1, d, 0)
    ensures r <= |d| && MatchAt(items, 2, d, r) && (r > 0 ==> d[r - 1] == '.')
  {
    if MatchAt(items, 2, d, 0) {
      r := 0;
    } else {
      var q: nat :| 0 <= q < |d| && NoNewline(d, 0, q) && d[q] == '.' && MatchAt(items, 2, d, q + 1);
      r := q + 1;
    }
  }

  /** A subdomain is the host, or stands behind a dot of it. */
  lemma SubdomainIsBehindDot(host: string, d: string) returns (x: string)
    requires d in SubdomainsOf(host)
    ensures host == x + d && (x != "" ==> x[|x| - 1] == '.')
  {
    SubdomainsMeaning(host, d);
    if d == host {
      x := "";
    } else {
      var k :| 0 <= k < |host| && host[k] == '.' && d == host[k + 1..];
      x := BeforeIt(host, k);
    }
  }

  lemma BeforeIt(host: string, k: nat) returns (x: string)
    requires k < |host|
    ensures host == x + host[k + 1..] && x != "" && x[|x| - 1] == host[k]
  {
    x := host[..k + 1];
  }

  lemma AcceptsHost(info: MatchInfo, host: string, d: string)
    requires !info.mode.lineStart && (info.mode.domainStart ==> '\n' !in host)
    requires d in SubdomainsOf(host) && Accepts(InfoItems(info), d)
    ensures Accepts(InfoItems(info), host)
  {
    var x := SubdomainIsBehindDot(host, d);
    if x == "" {
      assert host == d;
    } else if info.mode.domainStart {
      AcceptsBehindDot(info, x, d);
    } else {
      AcceptsBehind(info, x, d);
    }
  }

  // ----- an assertion of the start of the line ----------------------------------------------------------------

  predicate IsLiteral(w: string) {
    forall i :: 0 <= i < |w| ==> w[i] != '*'
  }

  /** The name starts with the word and, if its end is asserted too, is the word, up to a final line break. */
  predicate StartsLine(info: MatchInfo, s: string) {
    && StartsWith(s, ToLower(info.text))
    && (info.mode.lineEnd ==> |s| == |info.text| || (|s| == |info.text| + 1 && s[|s| - 1] == '\n'))
  }

  lemma {:induction false} WordMatches(items: seq<Item>, w: string, i: nat, s: string)
    requires 1 + |w| <= |items| && ItemsAt(items, 1, w) && IsLiteral(w) && i <= |w|
    requires StartsWith(s, ToLower(w)) && MatchAt(items, 1 + |w|, s, |w|)
    ensures MatchAt(items, 1 + i, s, i)
    decreases |w| - i
  {
    if i < |w| {
      WordMatches(items, w, i + 1, s);
      assert s[i] == s[..|w|][i] == ToLower(w)[i];
      assert items[1 + i] == ItemOf(w[i]);
      LowerTwice(w[i]);
    }
  }

  lemma LowerTwice(c: char)
    ensures LowerChar(LowerChar(c)) == LowerChar(c)
  {
  }

  lemma AnchoredItems(info: MatchInfo)
    requires info.mode.lineStart
    ensures var items := InfoItems(info);
            && |items| == 1 + |info.text| + (if info.mode.lineEnd then 1 else 0) && items[0] == LineStart
            && ItemsAt(items, 1, info.text) && (info.mode.lineEnd ==> items[1 + |info.text|] == LineEnd)
  {
  }

  /** The expression of a word at the start of a line accepts exactly the names that start with it. */
  lemma AnchoredAccepts(info: MatchInfo, s: string)
    requires info.mode.lineStart && IsLiteral(info.text) && IsLower(s)
    ensures Accepts(InfoItems(info), s) <==> StartsLine(info, s)
  {
    var items, w := InfoItems(info), info.text;
    AnchoredItems(info);
    if StartsLine(info, s) {
      WordMatches(items, w, 0, s);
      assert MatchAt(items, 0, s, 0);
    }
    if Accepts(items, s) {
      var p: nat :| p <= |s| && MatchAt(items, 0, s, p);
      LiteralRun(items, 1, w, 0, |w|, s, 0);
      assert w[0..|w|] == w && (w != "" ==> s[0..|w|] == s[..|w|]);
    }
  }

  // ----- rules of one word ------------------------------------------------------------------------------------

  /** A rule that is an expression only, and was made from a pattern, is one word. */
  lemma RegexOnlyIsWord(env: Env, info: MatchInfo)
    requires LibraryFacts(env) && !info.isRegex && IsPlainPattern(info.text)
    requires info.text != "" && !IsTooWide(info.text) && ChooseMethod(env, info).0.Regex?
    ensures IsLiteral(info.text) && forall i :: 0 <= i < |info.text| ==> !IsSpecial(info.text[i])
  {
    SinglePiece(info.text);
  }

  /** Exactly the rules that assert the start of the line are lost, on exactly the hosts that do not start with their word.
      (A line break in a host hides a domain's start from the expression, too.) */
  lemma RegexOnlyRuleIsFound(env: Env, line: string, host: string)
    requires LibraryFacts(env) && Trimmed(line) && IsPatternRule(env, line) && IsRegexRule(MatcherOf(env), line)
    requires IsLower(host) && LineMatches(MatcherOf(env), line, host)
    ensures var info := PatternInfo(line);
            && (info.mode.lineStart ==> (IndexAccepts(MatcherOf(env), line, host) <==> StartsLine(info, host)))
            && (!info.mode.lineStart && (info.mode.domainStart ==> '\n' !in host) ==> IndexAccepts(MatcherOf(env), line, host))
  {
    var m, info := MatcherOf(env), PatternInfo(line);
    PatternRuleIsParsed(env, line);
    RegexOnlyIsWord(env, info);
    PatternRuleMeaning(env, line, host);
    if info.mode.lineStart {
      AnchoredAccepts(info, host);
    } else if info.mode.domainStart ==> '\n' !in host {
      var d := AcceptedSubdomain(env, line, host);
      AcceptsHost(info, host, d);
    }
  }

  lemma AcceptedSubdomain(env: Env, line: string, host: string) returns (d: string)
    requires LibraryFacts(env) && Trimmed(line) && IsPatternRule(env, line) && IsRegexRule(MatcherOf(env), line)
    requires LineMatches(MatcherOf(env), line, host)
    ensures d in SubdomainsOf(host) && Accepts(InfoItems(PatternInfo(line)), d)
  {
    var m, info := MatcherOf(env), PatternInfo(line);
    PatternRuleIsParsed(env, line);
    RegexIsOfThePattern(line);
    RegexReadsAsPattern(info);
    assert m.regexOf(line) == RegexOf(info);
    d := MatchingSubdomain(m, line, host);
  }

  lemma MatchingSubdomain(m: Matcher, line: string, host: string) returns (d: string)
    requires m.parse(line).Some? && m.parse(line).value.method_.Regex? && !m.parse(line).value.pub.props.badfilter
    requires m.parse(line).value.pub.text == line && LineMatches(m, line, host)
    ensures d in SubdomainsOf(host) && m.regexMatches(m.regexOf(line), d)
  {
    var i :| 0 <= i < |SubdomainsOf(host)| && m.regexMatches(m.regexOf(line), SubdomainsOf(host)[i]);
    d := SubdomainsOf(host)[i];
  }

  /** On a host without line breaks, a list whose regular-expression rules are made from patterns is searched like by a plain
      scan exactly when every rule that asserts the start of the line and accepts some subdomain starts the host. */
  lemma OnlyLineStartsAreLost(env: Env, lines: seq<Reported>, host: string)
    requires LibraryFacts(env) && IsLower(host) && '\n' !in host
    requires forall k :: 0 <= k < |lines| ==>
               Trimmed(lines[k].1) && (IsRegexRule(MatcherOf(env), lines[k].1) ==> IsPatternRule(env, lines[k].1))
    ensures FoundByScan(MatcherOf(env), lines, host) == PlainScan(MatcherOf(env), lines, host) <==>
            forall k :: 0 <= k < |lines| && IsRegexRule(MatcherOf(env), lines[k].1) &&
                        LineMatches(MatcherOf(env), lines[k].1, host) && PatternInfo(lines[k].1).mode.lineStart ==>
                          StartsLine(PatternInfo(lines[k].1), host)
  {
    var m := MatcherOf(env);
    MatcherKeepsRegexTexts(env);
    FoundIsPlainScan(m, lines, host);
    forall k | 0 <= k < |lines| && IsRegexRule(m, lines[k].1) && LineMatches(m, lines[k].1, host)
      ensures PassesGate(m, m.parse(lines[k].1).value, host) <==>
              (PatternInfo(lines[k].1).mode.lineStart ==> StartsLine(PatternInfo(lines[k].1), host))
    {
      RegexOnlyRuleIsFound(env, lines[k].1, host);
      GateDecides(m, lines[k].1, host);
    }
  }

  lemma GateDecides(m: Matcher, line: string, host: string)
    requires IsRegexRule(m, line) && LineMatches(m, line, host) && RegexTextsAreOwn(m)
    ensures IndexAccepts(m, line, host) <==> PassesGate(m, m.parse(line).value, host)
  {
  }
}
