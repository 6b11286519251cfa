/** What the filter of dnsfilter/src/filter.cpp finds for a host, and why the tables it looks in are
    enough: everything here is about values, the tables themselves are in FilterIndex. */
module FilterSpec {
  import opened Text
  import opened Lines
  import opened RuleSyntax
  import opened Shortcuts

  /** A rule list, held in memory or in a file. */
  datatype Source = InMemory(text: string) | OnDisk(text: string)

  function ReportedLines(src: Source): seq<Reported> {
    match src
    case InMemory(text) => MemoryLines(text)
    case OnDisk(text) => FileLines(text)
  }

  function ReadAt(src: Source, pos: nat): Option<string> {
    match src
    case InMemory(text) => ReadLine(text, pos)
    case OnDisk(text) => Some(ReadFileLineSpec(text, pos))
  }

  lemma ReadsBack(src: Source, k: nat)
    requires k < |ReportedLines(src)|
    ensures ReadAt(src, ReportedLines(src)[k].0) == Some(ReportedLines(src)[k].1)
  {
    match src
    case InMemory(text) => MemoryReadBack(text, k);
    case OnDisk(text) => FileReadBack(text, k);
  }

  lemma ReadsTrimmed(src: Source, pos: nat)
    ensures ReadAt(src, pos).Some? ==> Trimmed(ReadAt(src, pos).value)
  {
    if pos < |src.text| {
      TrimTrims(src.text[pos..Lines.LineEnd(src.text, pos)]);
    }
  }

  // ----- subdomains -----------------------------------------------------------------------------

  function Dots(s: string): nat {
    multiset(s)['.']
  }

  /** The host and what follows each of its dots, the top-level domain excepted. */
  function SubdomainsOf(s: string): seq<string>
    decreases |s|
  {
    if Dots(s) < 2 then [s]
    else
      DotsAfterSplit(s);
      [s] + SubdomainsOf(Split2(s, '.').1)
  }

  /** The first dot of a string that has one. */
  function FirstDot(s: string): (f: nat)
    requires '.' in s
    ensures f < |s| && s[f] == '.' && '.' !in s[..f]
    ensures forall j :: 0 <= j < f ==> s[j] != '.'
    ensures Split2(s, '.') == (s[..f], s[f + 1..])
  {
    FindsDot(s, 0);
    var f := Find(s, ".", 0).value;
    assert forall j :: 0 <= j < f ==> s[j] == s[..f][j];
    f
  }

  lemma {:induction false} FindsDot(s: string, i: nat)
    requires i <= |s| && '.' in s[i..]
    ensures Find(s, ".", i).Some?
    ensures var f := Find(s, ".", i).value; s[f] == '.' && '.' !in s[i..f]
    decreases |s| - i
  {
    assert s[i..i + 1] == [s[i]];
    if s[i] != '.' {
      assert s[i..][1..] == s[i + 1..];
      FindsDot(s, i + 1);
      var f := Find(s, ".", i + 1).value;
      assert s[i..f] == [s[i]] + s[i + 1..f];
    }
  }

  lemma DotsAfterSplit(s: string)
    ensures Dots(s) > 0 <==> '.' in s
    ensures Dots(s) > 0 ==> |Split2(s, '.').1| < |s| && Dots(Split2(s, '.').1) == Dots(s) - 1
  {
    if '.' in s {
      var f := FirstDot(s);
      assert s == s[..f] + "." + s[f + 1..];
      assert multiset(s) == multiset(s[..f]) + multiset(".") + multiset(s[f + 1..]);
    }
  }

  /** `d` is what follows some dot of `s`. */
  ghost predicate FollowsDot(s: string, d: string) {
    exists k :: 0 <= k < |s| && s[k] == '.' && d == s[k + 1..]
  }

  lemma FollowsFirstDot(s: string, d: string)
    requires '.' in s
    ensures FollowsDot(s, d) <==> d == Split2(s, '.').1 || FollowsDot(Split2(s, '.').1, d)
  {
    var f := FirstDot(s);
    var t := s[f + 1..];
    forall k | f < k < |s|
      ensures t[k - f - 1] == s[k] && t[k - f..] == s[k + 1..]
    {
    }
    if FollowsDot(s, d) {
      var k :| 0 <= k < |s| && s[k] == '.' && d == s[k + 1..];
      assert k > f ==> t[k - f - 1] == '.' && t[k - f..] == d;
    }
    if FollowsDot(t, d) {
      var k :| 0 <= k < |t| && t[k] == '.' && d == t[k + 1..];
      assert s[f + 1 + k] == '.' && s[f + 1 + k + 1..] == d;
    }
  }

  /** A name is among the subdomains of a host exactly when it is the host itself, or has a dot of its
      own and follows a dot of the host. */
  lemma {:induction false} SubdomainsMeaning(s: string, d: string)
    ensures d in SubdomainsOf(s) <==> d == s || ('.' in d && FollowsDot(s, d))
    decreases |s|
  {
    DotsAfterSplit(s);
    var t := Split2(s, '.').1;
    if Dots(s) < 2 {
      if FollowsDot(s, d) {
        FollowsFirstDot(s, d);
        DotsAfterSplit(t);
        assert d == t;
      }
    } else {
      SubdomainsMeaning(t, d);
      FollowsFirstDot(s, d);
      DotsAfterSplit(t);
    }
  }

  // ----- the parser the filter is built on --------------------------------------------------------

  /** What the filter uses of the rule syntax: parsing a line, the regular expression of a rule text,
      the hash and the regular expression library. */
  datatype Matcher = Matcher(
    parse: string -> Option<ParsedRule>,
    regexOf: string -> string,
    hash: string -> nat,
    regexMatches: (string, string) -> bool
  )

  /** The two facts about parsing that the tables depend on: a rule's text parses to a rule with that
      text, and the pieces of a rule that is not found by domain are in lower case already. */
  ghost predicate ParsesSoundly(m: Matcher) {
    && (forall line :: Trimmed(line) && m.parse(line).Some? ==> OwnText(m, m.parse(line).value.pub.text))
    && (forall line :: m.parse(line).Some? ==> LowerParts(m.parse(line).value))
  }

  predicate OwnText(m: Matcher, text: string) {
    m.parse(text).Some? ==> m.parse(text).value.pub.text == text
  }

  predicate LowerParts(rule: ParsedRule) {
    rule.method_.Exact? || rule.method_.Subdomains? || LowerAll(rule.parts) == rule.parts
  }

  function MatcherOf(env: Env): Matcher {
    Matcher(line => Parse(env, line), GetRegex, env.hash, env.regexMatches)
  }

  lemma LowerAllTwice(parts: seq<string>)
    ensures LowerAll(LowerAll(parts)) == LowerAll(parts)
  {
    forall i | 0 <= i < |parts|
      ensures ToLower(ToLower(parts[i])) == ToLower(parts[i])
    {
      ToLowerIsLower(parts[i]);
      ToLowerIsLower(ToLower(parts[i]));
    }
  }

  lemma LowerOne(s: string)
    ensures LowerAll([ToLower(s)]) == [ToLower(s)]
  {
    LowerAllTwice([s]);
    assert LowerAll([s]) == [ToLower(s)];
  }

  lemma ChosenPartsAreLower(env: Env, info: MatchInfo)
    ensures var (m, parts) := ChooseMethod(env, info); m.Exact? || m.Subdomains? || LowerAll(parts) == parts
  {
    LowerAllTwice(SplitByAnyOf(info.text, "*"));
    LowerAllTwice(RegexShortcuts(env.stripGroups(info.text), 0));
    LowerOne(info.text);
  }

  lemma PatternPartsAreChosen(env: Env, line: string, s: string)
    requires ParsePattern(env, line, s).Some?
    ensures var rule := ParsePattern(env, line, s).value;
            rule.method_.Exact? || (rule.method_, rule.parts) == ChooseMethod(env, ExtractMatchInfo(PatternPart(s).0))
  {
  }

  lemma HostsPartsAreExact(env: Env, s: string)
    requires ParseHostRule(env, s).Some?
    ensures LowerParts(ParseHostRule(env, s).value)
  {
  }

  lemma PartsAreLower(env: Env, line: string)
    requires Parse(env, line).Some?
    ensures LowerParts(Parse(env, line).value)
  {
    var s := Trim(line);
    if !IsDomainName(env, s) {
      if IsHostRule(env, s) {
        HostsPartsAreExact(env, s);
      } else {
        PatternPartsAreChosen(env, line, s);
        ChosenPartsAreLower(env, ExtractMatchInfo(PatternPart(s).0));
      }
    }
  }

  lemma MatcherIsSound(env: Env)
    ensures ParsesSoundly(MatcherOf(env))
  {
    var m := MatcherOf(env);
    forall line | Trimmed(line) && m.parse(line).Some?
      ensures OwnText(m, m.parse(line).value.pub.text)
    {
      RuleTexts(env, line);
    }
    forall line | m.parse(line).Some?
      ensures LowerParts(m.parse(line).value)
    {
      PartsAreLower(env, line);
    }
  }

  // ----- one rule against one host ----------------------------------------------------------------

  predicate AnySubdomainMatches(m: Matcher, re: string, subdomains: seq<string>) {
    exists i :: 0 <= i < |subdomains| && m.regexMatches(re, subdomains[i])
  }

  /** The comparison of `match_against_line`. */
  predicate RuleMatches(m: Matcher, rule: ParsedRule, host: string) {
    rule.pub.props.badfilter ||
    match rule.method_
    case Exact => host in rule.parts
    case Subdomains => exists i :: 0 <= i < |rule.parts| && rule.parts[i] in SubdomainsOf(host)
    case Shortcuts => MatchShortcuts(rule.parts, host)
    case ShortcutsAndRegex =>
      MatchShortcuts(rule.parts, host) && m.regexMatches(m.regexOf(rule.pub.text), host)
    case Regex => AnySubdomainMatches(m, m.regexOf(rule.pub.text), SubdomainsOf(host))
  }

  predicate LineMatches(m: Matcher, line: string, host: string) {
    m.parse(line).Some? && RuleMatches(m, m.parse(line).value, host)
  }

  function TextOf(m: Matcher, line: string): string {
    if m.parse(line).Some? then m.parse(line).value.pub.text else line
  }

  /** The test a leftover entry puts before the comparison; it looks at the full host only. */
  predicate PassesGate(m: Matcher, rule: ParsedRule, host: string) {
    && (rule.parts == [] || MatchShortcuts(rule.parts, host))
    && (rule.method_.Shortcuts? || m.regexMatches(m.regexOf(rule.pub.text), host))
  }

  predicate IsBadfilter(m: Matcher, line: string) {
    m.parse(line).Some? && m.parse(line).value.pub.props.badfilter
  }

  /** What the filter finds: a rule its comparison accepts, where a rule that is a regular expression
      only must also pass the gate. */
  predicate IndexAccepts(m: Matcher, line: string, host: string) {
    && LineMatches(m, line, host)
    && !IsBadfilter(m, line)
    && (m.parse(line).value.method_.Regex? ==> PassesGate(m, m.parse(line).value, host))
  }

  // ----- where a line is put ----------------------------------------------------------------------

  /** The hashes under which a line goes into the domain tables. */
  function DomainHashes(m: Matcher, line: string): seq<nat> {
    match m.parse(line)
    case None => []
    case Some(rule) =>
      if !rule.pub.props.badfilter && (rule.method_.Exact? || rule.method_.Subdomains?)
      then HashAll(m, rule.parts) else []
  }

  function HashAll(m: Matcher, parts: seq<string>): (r: seq<nat>)
    ensures |r| == |parts|
    ensures forall i :: 0 <= i < |parts| ==> r[i] == m.hash(parts[i])
  {
    seq(|parts|, i requires 0 <= i < |parts| => m.hash(parts[i]))
  }

  const SHORTCUT_LENGTH := 5

  /** The first piece that is long enough for the shortcuts table. */
  function FirstLong(parts: seq<string>): (r: Option<string>)
    ensures r.Some? ==> r.value in parts && |r.value| >= SHORTCUT_LENGTH
  {
    if parts == [] then None
    else if |parts[0]| >= SHORTCUT_LENGTH then Some(parts[0])
    else FirstLong(parts[1..])
  }

  /** The hash under which a line goes into the shortcuts table. */
  function ShortcutHash(m: Matcher, line: string): Option<nat> {
    match m.parse(line)
    case None => None
    case Some(rule) =>
      if !rule.pub.props.badfilter && (rule.method_.Shortcuts? || rule.method_.ShortcutsAndRegex?) then
        match FirstLong(rule.parts)
        case None => None
        case Some(piece) => Some(m.hash(piece[..SHORTCUT_LENGTH]))
      else None
  }

  datatype Leftover = Leftover(shortcuts: seq<string>, regex: Option<string>, pos: nat)

  function LeftoverOf(m: Matcher, pos: nat, line: string): Option<Leftover> {
    match m.parse(line)
    case None => None
    case Some(rule) =>
      if rule.pub.props.badfilter || rule.method_.Exact? || rule.method_.Subdomains?
         || ShortcutHash(m, line).Some? then None
      else Some(Leftover(LowerAll(rule.parts),
                         if rule.method_.Shortcuts? then None else Some(m.regexOf(rule.pub.text)),
                         pos))
  }

  predicate EntryPasses(m: Matcher, entry: Leftover, host: string) {
    && (entry.shortcuts == [] || MatchShortcuts(entry.shortcuts, host))
    && (entry.regex.None? || m.regexMatches(entry.regex.value, host))
  }

  /** Where a line goes: under these hashes into the domain tables, under this one into the shortcuts
      table, as this entry among the leftovers. */
  datatype Place = Place(pos: nat, domains: seq<nat>, shortcut: Option<nat>, leftover: Option<Leftover>)

  function PlaceOf(m: Matcher, line: Reported): Place {
    Place(line.0, DomainHashes(m, line.1), ShortcutHash(m, line.1), LeftoverOf(m, line.0, line.1))
  }

  function Places(m: Matcher, lines: seq<Reported>): (r: seq<Place>)
    ensures |r| == |lines|
    ensures forall i :: 0 <= i < |lines| ==> r[i] == PlaceOf(m, lines[i])
  {
    seq(|lines|, i requires 0 <= i < |lines| => PlaceOf(m, lines[i]))
  }

  /** `pos` once for every occurrence of `h`. */
  function Repeated(pos: nat, hashes: seq<nat>, h: nat): (r: seq<nat>)
    ensures forall p :: p in r <==> p == pos && h in hashes
  {
    if hashes == [] then []
    else Repeated(pos, hashes[..|hashes| - 1], h) + (if hashes[|hashes| - 1] == h then [pos] else [])
  }

  /** The positions put into the domain tables under `h`, in the order in which they were put. */
  function DomainPositions(places: seq<Place>, h: nat): seq<nat> {
    if places == [] then []
    else
      var last := places[|places| - 1];
      DomainPositions(places[..|places| - 1], h) + Repeated(last.pos, last.domains, h)
  }

  function ShortcutPositions(places: seq<Place>, h: nat): seq<nat> {
    if places == [] then []
    else
      var last := places[|places| - 1];
      ShortcutPositions(places[..|places| - 1], h) + (if last.shortcut == Some(h) then [last.pos] else [])
  }

  function Leftovers(places: seq<Place>): seq<Leftover> {
    if places == [] then []
    else
      var last := places[|places| - 1];
      Leftovers(places[..|places| - 1]) + (if last.leftover.Some? then [last.leftover.value] else [])
  }

  lemma {:induction false} InDomainPositions(places: seq<Place>, h: nat, p: nat)
    ensures p in DomainPositions(places, h) <==>
            exists k :: 0 <= k < |places| && places[k].pos == p && h in places[k].domains
  {
    if places != [] {
      var n := |places| - 1;
      InDomainPositions(places[..n], h, p);
      assert forall k :: 0 <= k < n ==> places[..n][k] == places[k];
    }
  }

  lemma {:induction false} InShortcutPositions(places: seq<Place>, h: nat, p: nat)
    ensures p in ShortcutPositions(places, h) <==>
            exists k :: 0 <= k < |places| && places[k].pos == p && places[k].shortcut == Some(h)
  {
    if places != [] {
      var n := |places| - 1;
      InShortcutPositions(places[..n], h, p);
      assert forall k :: 0 <= k < n ==> places[..n][k] == places[k];
    }
  }

  lemma {:induction false} InLeftovers(places: seq<Place>, entry: Leftover)
    ensures entry in Leftovers(places) <==>
            exists k :: 0 <= k < |places| && places[k].leftover == Some(entry)
  {
    if places != [] {
      var n := |places| - 1;
      InLeftovers(places[..n], entry);
      assert forall k :: 0 <= k < n ==> places[..n][k] == places[k];
    }
  }
}
