/** Rule texts: dnsfilter/src/rule_utils.cpp. What a line of a rule list means to the filter — how a
    host is compared with it, and which pieces of it the index may use. */
module RuleSyntax {
  import opened Text

  /** What the filter asks of code outside it: the 32-bit string hash, the parsing of numeric
      addresses, and the regular expression library. The results below hold for any of these,
      except where they say otherwise. */
  datatype Env = Env(
    hash: string -> nat,
    isAddress: string -> bool,               // a numeric address, with or without a port
    numericHost: string -> Option<string>,   // a numeric address without a port, in canonical form
    validRegex: string -> bool,
    regexMatches: (string, string) -> bool,  // pattern, subject
    stripGroups: string -> string            // the replacement of bracketed groups by "..."
  )

  datatype Props = Props(exception: bool, important: bool, badfilter: bool)

  const NO_PROPS := Props(false, false, false)

  /** The public part of a rule; `ip` is present when the rule has hosts file syntax. */
  datatype Rule = Rule(text: string, props: Props, ip: Option<string>)

  datatype MatchMethod = Exact | Subdomains | Shortcuts | Regex | ShortcutsAndRegex

  datatype ParsedRule = ParsedRule(pub: Rule, method_: MatchMethod, parts: seq<string>)

  datatype Mode = Mode(lineStart: bool, lineEnd: bool, domainStart: bool)

  datatype MatchInfo = MatchInfo(text: string, isRegex: bool, mode: Mode)

  // ----- character classes --------------------------------------------------------------------

  predicate IsDigit(c: char) { '0' <= c <= '9' }

  predicate IsAlpha(c: char) { 'a' <= c <= 'z' || 'A' <= c <= 'Z' }

  predicate IsHexDigit(c: char) { IsDigit(c) || 'a' <= c <= 'f' || 'A' <= c <= 'F' }

  predicate IsDomainChar(c: char) {
    IsAlpha(c) || IsDigit(c) || c == '.' || c == '-' || c == '*' || c == '_'
  }

  predicate IsIpPatternChar(c: char) {
    IsHexDigit(c) || c == '.' || c == ':' || c == '[' || c == ']' || c == '*'
  }

  const MAX_DOMAIN_LENGTH := 255
  const MAX_LABEL_LENGTH := 63
  const MAX_IPADDR_LENGTH := 45

  predicate IsValidDomainPattern(s: string) {
    && |s| <= MAX_DOMAIN_LENGTH
    && (forall i :: 0 <= i < |s| ==> IsDomainChar(s[i]))
    && (forall part :: part in SplitByAnyOf(s, ".") ==> |part| <= MAX_LABEL_LENGTH)
  }

  predicate IsValidIpPattern(s: string) {
    0 < |s| <= MAX_IPADDR_LENGTH && forall i :: 0 <= i < |s| ==> IsIpPatternChar(s[i])
  }

  predicate IsDomainName(env: Env, s: string) {
    && s != ""
    && !env.isAddress(s)
    && '.' in s
    && s[|s| - 1] != '.'
    && s[0] != '.'
    && IsValidDomainPattern(s)
    && '*' !in s
  }

  /** An empty line has no first character to look at and counts as no comment. */
  predicate IsComment(s: string) {
    s != "" && (s[0] == '!' || s[0] == '#')
  }

  // ----- hosts file syntax ----------------------------------------------------------------------

  predicate IsHostRule(env: Env, s: string) {
    var parts := SplitByAnyOf(s, " \t");
    |parts| > 1 && env.numericHost(parts[0]).Some?
  }

  /** The lower-cased names of a hosts line, or `None` when one of them is no domain pattern. */
  function HostNames(names: seq<string>): Option<seq<string>> {
    if names == [] then Some([])
    else if names[0] == "" then HostNames(names[1..])
    else if !IsValidDomainPattern(names[0]) && '*' !in names[0] then None
    else
      match HostNames(names[1..])
      case None => None
      case Some(rest) => Some([ToLower(names[0])] + rest)
  }

  /** The text before a trailing comment. */
  function WithoutComment(s: string): string {
    RTrim(s[..FindFirstOf(s, "#", 0)])
  }

  function ParseHostRule(env: Env, line: string): Option<ParsedRule> {
    var s := WithoutComment(line);
    var parts := SplitByAnyOf(s, " \t");
    if |parts| < 2 || env.numericHost(parts[0]).None? then None
    else
      match HostNames(parts[1..])
      case None => None
      case Some(names) =>
        if names == [] then None
        else Some(ParsedRule(Rule(s, NO_PROPS, Some(parts[0])), Subdomains, names))
  }

  // ----- prefixes, suffixes and modifiers -------------------------------------------------------

  predicate CheckRegex(s: string) {
    |s| > 1 && s[0] == '/' && s[|s| - 1] == '/'
  }

  const SKIPPABLE_PREFIXES :=
    ["https://", "http://", "http*://", "ws://", "wss://", "ws*://", "://", "//"]

  const SPECIAL_SUFFIXES := ['|', '^', '/']

  function RemoveSkippablePrefix(s: string, prefixes: seq<string>): (string, bool) {
    if prefixes == [] then (s, false)
    else if StartsWith(s, prefixes[0]) then (s[|prefixes[0]|..], true)
    else RemoveSkippablePrefix(s, prefixes[1..])
  }

  function RemoveSpecialPrefix(s: string): (string, Mode) {
    if StartsWith(s, "||") then (s[2..], Mode(false, false, true))
    else if s != "" && s[0] == '|' then (s[1..], Mode(true, false, false))
    else (s, Mode(false, false, false))
  }

  /** Each special suffix is taken off at most once, in any order. */
  function RemoveSpecialSuffixes(s: string, suffixes: seq<char>): (r: (string, bool))
    ensures r.0 <= s
    decreases |suffixes|
  {
    if s != "" && s[|s| - 1] in suffixes then
      var i := Find(suffixes, [s[|s| - 1]], 0);
      if i.None? then (s, false)
      else (RemoveSpecialSuffixes(s[..|s| - 1], suffixes[..i.value] + suffixes[i.value + 1..]).0, true)
    else (s, false)
  }

  predicate IsValidPort(s: string) {
    |s| <= 5 && forall i :: 0 <= i < |s| ==> IsDigit(s[i])
  }

  function RemovePort(s: string): (string, Mode) {
    match RFind(s, ":")
    case None => (s, Mode(false, false, false))
    case Some(last) =>
      var first := Find(s, ":", 0);
      if first.None? then (s, Mode(false, false, false))
      else if first.value == last && first.value != |s| - 1 && IsValidPort(s[first.value + 1..]) then
        (s[..first.value], Mode(false, true, false))
      else if first.value > 1 && s[first.value - 1] == ']' && s[0] == '[' && first.value <= last then
        (s[1..last - 1], Mode(true, true, false))
      else (s, Mode(false, false, false))
  }

  function ExtractMatchInfo(s: string): MatchInfo {
    if CheckRegex(s) then MatchInfo(s[1..|s| - 1], true, Mode(false, false, false))
    else
      var (s1, m1) := RemoveSpecialPrefix(s);
      var (s2, skipped) := RemoveSkippablePrefix(s1, SKIPPABLE_PREFIXES);
      var (s3, ended) := RemoveSpecialSuffixes(s2, SPECIAL_SUFFIXES);
      var (s4, m4) := RemovePort(s3);
      // a line-start assertion cancels a domain-start one made by the two prefixes
      var domainStart := (m1.domainStart || skipped) && !m1.lineStart;
      MatchInfo(s4, false, Mode(m1.lineStart || m4.lineStart, ended || m4.lineEnd, domainStart))
  }

  function ExtractModifiers(modifiers: seq<string>, props: Props): Option<Props> {
    if modifiers == [] then Some(props)
    else if modifiers[0] == "important" && !props.important then
      ExtractModifiers(modifiers[1..], props.(important := true))
    else if modifiers[0] == "badfilter" && !props.badfilter then
      ExtractModifiers(modifiers[1..], props.(badfilter := true))
    else None
  }

  // ----- the pieces of a pattern ----------------------------------------------------------------

  /** One of the characters `\\^$*+?.()|[]{}`. */
  predicate IsSpecial(c: char) {
    || c == '\\' || c == '^' || c == '$' || c == '*' || c == '+' || c == '?' || c == '.'
    || c == '(' || c == ')' || c == '|' || c == '[' || c == ']' || c == '{' || c == '}'
  }

  const ESCAPES := "nrtdDwWsSbB<>AZ"

  /** How many characters `skip_special_chars` takes off at position `i`. */
  function SpecialLength(s: string, i: nat): (n: nat)
    requires i < |s|
    ensures 1 <= n <= |s| - i
  {
    if i + 1 < |s| && s[i] == '\\' && s[i + 1] in ESCAPES then 2 else 1
  }

  /** Where the run of ordinary characters that starts at `i` ends. */
  function RunEnd(s: string, i: nat): (n: nat)
    requires i <= |s|
    ensures i <= n <= |s|
    ensures forall j :: i <= j < n ==> !IsSpecial(s[j])
    ensures n < |s| ==> IsSpecial(s[n])
    decreases |s| - i
  {
    if i == |s| || IsSpecial(s[i]) then i else RunEnd(s, i + 1)
  }

  /** The runs of ordinary characters of a regular expression from position `i` on, in order. */
  function RegexShortcuts(s: string, i: nat): seq<string>
    requires i <= |s|
    decreases |s| - i
  {
    var n := RunEnd(s, i);
    var head := if n > i then [s[i..n]] else [];
    if n == |s| then head else head + RegexShortcuts(s, n + SpecialLength(s, n))
  }

  /** The same, collected behind the runs that are done. */
  function RegexShortcutsFrom(s: string, i: nat, done: seq<string>): seq<string>
    requires i <= |s|
    decreases |s| - i
  {
    var n := RunEnd(s, i);
    var more := if n > i then done + [s[i..n]] else done;
    if n == |s| then more else RegexShortcutsFrom(s, n + SpecialLength(s, n), more)
  }

  lemma {:induction false} RegexShortcutsBehind(s: string, i: nat, done: seq<string>)
    requires i <= |s|
    ensures RegexShortcutsFrom(s, i, done) == done + RegexShortcuts(s, i)
    decreases |s| - i
  {
    var n := RunEnd(s, i);
    if n < |s| {
      var next := n + SpecialLength(s, n);
      var more := if n > i then done + [s[i..n]] else done;
      RegexShortcutsBehind(s, next, more);
      if n > i {
        Regroup(done, [s[i..n]], RegexShortcuts(s, next));
      } else {
        assert [] + RegexShortcuts(s, next) == RegexShortcuts(s, next);
      }
    }
  }

  method ExtractRegexShortcuts(text: string) returns (shortcuts: seq<string>)
    ensures shortcuts == RegexShortcuts(text, 0)
  {
    shortcuts := [];
    var i := 0;
    while i < |text|
      invariant 0 <= i <= |text|
      invariant RegexShortcutsFrom(text, i, shortcuts) == RegexShortcutsFrom(text, 0, [])
      decreases |text| - i
    {
      i, shortcuts := NextShortcut(text, i, shortcuts);
    }
    RegexShortcutsBehind(text, 0, []);
  }

  method NextShortcut(text: string, i: nat, shortcuts: seq<string>) returns (next: nat, more: seq<string>)
    requires i < |text|
    ensures i < next <= |text| && RegexShortcutsFrom(text, next, more) == RegexShortcutsFrom(text, i, shortcuts)
  {
    var seek := RunEnd(text, i);
    more := shortcuts;
    if seek > i {
      more := more + [text[i..seek]];
    }
    next := if seek == |text| then seek else seek + SpecialLength(text, seek);
  }

  function LowerAll(parts: seq<string>): (r: seq<string>)
    ensures |r| == |parts|
    ensures forall i :: 0 <= i < |parts| ==> r[i] == ToLower(parts[i])
  {
    seq(|parts|, i requires 0 <= i < |parts| => ToLower(parts[i]))
  }

  // ----- the regular expression of a rule -------------------------------------------------------

  /** A pattern in the rule's wildcard syntax, turned into one of the regular expression library. */
  function Escape(s: string): string {
    if s == "" then "" else EscapeGuard(s[0]) + [s[0]] + Escape(s[1..])
  }

  function EscapeGuard(c: char): string {
    if c == '*' then "." else if c == '.' then "\\" else ""
  }

  method EscapeLoop(re: string) returns (out: string)
    ensures out == Escape(re)
  {
    out := "";
    var i := 0;
    while i < |re|
      invariant 0 <= i <= |re|
      invariant out + Escape(re[i..]) == Escape(re)
    {
      EscapeStep(re, i, out);
      var guard := EscapeGuard(re[i]);
      out := out + guard + [re[i]];
      i := i + 1;
    }
  }

  lemma EscapeStep(re: string, i: nat, out: string)
    requires i < |re|
    ensures out + Escape(re[i..]) == out + EscapeGuard(re[i]) + [re[i]] + Escape(re[i + 1..])
  {
    assert re[i..][1..] == re[i + 1..];
  }

  function StartText(mode: Mode): string {
    if mode.lineStart then "^" else if mode.domainStart then "^(*.)?" else ""
  }

  function EndText(mode: Mode): string {
    if mode.lineEnd then "$" else ""
  }

  function AnchoredPattern(info: MatchInfo): string {
    StartText(info.mode) + (info.text + EndText(info.mode))
  }

  function RegexOf(info: MatchInfo): string {
    if info.isRegex then info.text else Escape(AnchoredPattern(info))
  }

  /** The part of a rule text a pattern is read from: no exception marker and no modifiers. */
  function PatternPart(s: string): (string, string) {
    var t := if StartsWith(s, "@@") then s[2..] else s;
    if CheckRegex(t) then (t, "") else RSplit2(t, '$')
  }

  /** The pattern `get_regex` reads the rule text for again, with a test of its own for slashes. */
  function RegexPatternPart(s: string): string {
    var t := if StartsWith(s, "@@") then s[2..] else s;
    if t == "" || t[0] != '/' || t[|t| - 1] != '/' then RSplit2(t, '$').0 else t
  }

  function GetRegex(text: string): string {
    RegexOf(ExtractMatchInfo(RegexPatternPart(text)))
  }

  // ----- parsing a rule -------------------------------------------------------------------------

  predicate IsTooWide(s: string) {
    forall i :: 0 <= i < |s| ==> s[i] == '.' || s[i] == '*'
  }

  /** How a host is compared with a pattern, and which pieces of it the comparison uses. */
  function ChooseMethod(env: Env, info: MatchInfo): (MatchMethod, seq<string>) {
    var exact := info.mode == Mode(true, true, false);
    var subdomains := info.mode == Mode(false, true, true);
    if !info.isRegex && exact && env.numericHost(info.text).Some? then
      (Exact, [env.numericHost(info.text).value])
    else if !info.isRegex && '*' !in info.text && (exact || subdomains) then
      (if exact then Exact else Subdomains, [ToLower(info.text)])
    else if !info.isRegex && info.mode == Mode(false, false, false) then
      (Shortcuts, LowerAll(SplitByAnyOf(info.text, "*")))
    else if '?' in info.text then
      (Regex, [])
    else
      var text := env.stripGroups(info.text);
      var pieces := RegexShortcuts(text, 0);
      if |pieces| > 1 || (text != "" && (IsSpecial(text[0]) || IsSpecial(text[|text| - 1]))) then
        (ShortcutsAndRegex, LowerAll(pieces))
      else
        (Regex, [ToLower(info.text)])
  }

  function ParsePattern(env: Env, line: string, s: string): Option<ParsedRule> {
    var (pattern, modifiers) := PatternPart(s);
    var info := ExtractMatchInfo(pattern);
    if info.text == "" || IsTooWide(info.text) then None
    else if !info.isRegex && !IsValidDomainPattern(info.text) && !IsValidIpPattern(info.text) then None
    else
      var props := ExtractModifiers(if modifiers == "" then [] else SplitByAnyOf(modifiers, ","),
                                    NO_PROPS.(exception := StartsWith(s, "@@")));
      if props.None? then None
      else
        var pub := Rule(line, props.value, None);
        if props.value.badfilter then Some(ParsedRule(pub, Exact, []))
        else
          var (m, parts) := ChooseMethod(env, info);
          if (m.Regex? || m.ShortcutsAndRegex?) && !env.validRegex(GetRegex(line)) then None
          else Some(ParsedRule(pub, m, parts))
  }

  function Parse(env: Env, line: string): Option<ParsedRule> {
    if IsComment(line) then None
    else
      var s := Trim(line);
      if s == "" then None
      else if IsDomainName(env, s) then Some(ParsedRule(Rule(s, NO_PROPS, None), Exact, [ToLower(s)]))
      else if IsHostRule(env, s) then ParseHostRule(env, s)
      else ParsePattern(env, line, s)
  }

  const BADFILTER := "badfilter"

  /** `get_text_without_badfilter`: the rule text with the modifier, and the separator that goes with
      it, taken out. */
  function TextWithoutBadfilter(text: string): string {
    var (pattern, modifiers) := RSplit2(text, '$');
    match Find(modifiers, BADFILTER, 0)
    case None => text
    case Some(i) => JoinAround(pattern + "$" + modifiers[..i], modifiers[i + |BADFILTER|..])
  }

  /** What stands before and after a modifier, without the separator that goes with it. */
  function JoinAround(prefix: string, suffix: string): string
    requires prefix != ""
  {
    var last := prefix[|prefix| - 1];
    if last == ',' || (suffix == "" && last == '$') then prefix[..|prefix| - 1] + suffix
    else if suffix != "" && suffix[0] == ',' && last == '$' then prefix + suffix[1..]
    else prefix + suffix
  }

  // ----- what parsing keeps ---------------------------------------------------------------------

  /** A text that its own rule carries, if it has one: parsing it again changes nothing. */
  predicate IsOwnText(env: Env, text: string) {
    Parse(env, text).Some? ==> Parse(env, text).value.pub.text == text
  }

  lemma WithoutCommentFacts(s: string)
    requires Trimmed(s) && s != "" && s[0] != '#'
    ensures var t := WithoutComment(s); Trimmed(t) && t != "" && t[0] == s[0] && '#' !in t
  {
    var n := FindFirstOf(s, "#", 0);
    var cut := s[..n];
    assert n > 0;
    assert cut[0] == s[0];
    RTrimKeepsHead(cut);
    var t := RTrim(cut);
    assert forall i :: 0 <= i < |t| ==> t[i] == s[i] && s[i] !in "#";
    assert forall c :: c in "#" <==> c == '#';
  }

  lemma RTrimKeepsHead(s: string)
    requires s != "" && !IsSpace(s[0])
    ensures var t := RTrim(s); t != "" && t <= s && t[0] == s[0] && !IsSpace(t[|t| - 1])
  {
    SkipSpacesBackStops(s, |s|);
  }

  lemma {:induction false} SkipSpacesBackStops(s: string, hi: nat)
    requires s != "" && !IsSpace(s[0]) && 0 < hi <= |s|
    ensures SkipSpacesBack(s, 0, hi) > 0
  {
    if IsSpace(s[hi - 1]) {
      SkipSpacesBackStops(s, hi - 1);
    }
  }

  lemma WithoutCommentAgain(s: string)
    requires Trimmed(s) && s != "" && '#' !in s
    ensures WithoutComment(s) == s
  {
    var n := FindFirstOf(s, "#", 0);
    assert forall c :: c in "#" <==> c == '#';
    assert n == |s|;
    assert s[..n] == s;
  }

  lemma HostRuleText(env: Env, line: string)
    requires Trimmed(line) && line != "" && line[0] != '#' && ParseHostRule(env, line).Some?
    ensures Parse(env, WithoutComment(line)).Some? ==>
              Parse(env, WithoutComment(line)).value.pub.text == WithoutComment(line)
  {
    WithoutCommentFacts(line);
    var t := WithoutComment(line);
    TrimTrims(t);
    WithoutCommentAgain(t);
  }

  /** The text of a rule: the line itself, unless the line is a hosts line with a trailing comment;
      in both cases a text that parses to a rule with that same text. */
  lemma RuleTexts(env: Env, line: string)
    requires Trimmed(line) && Parse(env, line).Some?
    ensures var rule := Parse(env, line).value;
            && IsOwnText(env, rule.pub.text)
            && (rule.pub.text != line ==> rule.pub.ip.Some? && rule.pub.text == WithoutComment(line))
  {
    TrimTrims(line);
    if !IsDomainName(env, line) && IsHostRule(env, line) {
      HostRuleText(env, line);
    }
  }

  /** Hosts rules carry no modifiers, badfilter rules are no hosts rules. */
  lemma HostsRulesArePlain(env: Env, line: string)
    requires Parse(env, line).Some? && Parse(env, line).value.pub.ip.Some?
    ensures Parse(env, line).value.pub.props == NO_PROPS
    ensures Parse(env, line).value.method_ == Subdomains
  {
  }

  /** The regular expression of a rule is that of the pattern the rule was parsed from. */
  lemma RegexIsOfThePattern(line: string)
    ensures RegexPatternPart(line) == PatternPart(line).0
  {
    var t := if StartsWith(line, "@@") then line[2..] else line;
    if t != "" && t[0] == '/' && t[|t| - 1] == '/' && !CheckRegex(t) {
      assert t == "/";
    }
  }
}
