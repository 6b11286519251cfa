/** Rules on unanchored wildcard patterns (dnsfilter/src/rule_utils.cpp:411-423, dnsfilter/src/filter.cpp:479-481): the
    pieces between the wildcards are looked for, and no expression is tried. */
module WildcardRules {
  import opened Text
  import opened RuleSyntax
  import opened Shortcuts
  import opened ShortcutOrder
  import opened FilterSpec
  import opened FilterMeaning

  // ----- the pieces between wildcards ---------------------------------------------------------------------

  predicate Spaceless(s: string) {
    forall i :: 0 <= i < |s| ==> !IsSpace(s[i])
  }

  function NextStar(text: string, i: nat): (n: nat)
    requires i <= |text|
    ensures i <= n <= |text| && (forall j :: i <= j < n ==> text[j] != '*') && (n < |text| ==> text[n] == '*')
    decreases |text| - i
  {
    if i == |text| || text[i] == '*' then i else NextStar(text, i + 1)
  }

  function StarPiecesBehind(text: string, n: nat): seq<string>
    requires n <= |text|
    decreases |text| - n, 0
  {
    if n == |text| then [] else StarPieces(text, n + 1)
  }

  /** The non-empty pieces between the wildcards from `i` on. */
  function StarPieces(text: string, i: nat): seq<string>
    requires i <= |text|
    decreases |text| - i, 1
  {
    var n := NextStar(text, i);
    if n > i then [text[i..n]] + StarPiecesBehind(text, n) else StarPiecesBehind(text, n)
  }

  lemma StarEnds(text: string, delims: string, i: nat)
    requires i <= |text| && forall c :: c in delims <==> c == '*'
    ensures FindFirstOf(text, delims, i) == NextStar(text, i)
  {
  }

  lemma {:induction false} SplitIsStarPieces(text: string, delims: string, i: nat)
    requires i <= |text| && Spaceless(text) && forall c :: c in delims <==> c == '*'
    ensures SplitFrom(text, delims, i) == StarPieces(text, i)
    decreases |text| - i
  {
    var n := NextStar(text, i);
    StarEnds(text, delims, i);
    UntrimmedPiece(text, i, n);
    if n < |text| {
      SplitIsStarPieces(text, delims, n + 1);
    }
    NoPiece(StarPiecesBehind(text, n));
  }

  lemma UntrimmedPiece(text: string, i: nat, n: nat)
    requires i <= n <= |text| && Spaceless(text)
    ensures Trim(text[i..n]) == text[i..n]
  {
    TrimTrims(text[i..n]);
  }

  lemma NoPiece(rest: seq<string>)
    ensures [] + rest == rest && rest + [] == rest
  {
  }

  /** Where the items match, the pieces occur in order. */
  lemma {:induction false} StarPiecesInOrder(items: seq<Item>, text: string, i: nat, host: string, p: nat)
    requires ItemsAt(items, 0, text) && i <= |text|
    requires IsLower(host) && MatchAt(items, i, host, p)
    ensures InOrder(LowerAll(StarPieces(text, i)), host, p)
    decreases |text| - i
  {
    var n := NextStar(text, i);
    LiteralRun(items, 0, text, i, n, host, p);
    var rest := StarPiecesBehind(text, n);
    if n < |text| {
      var q := SpecialStep(items, 0, text, n, host, p + (n - i));
      StarPiecesInOrder(items, text, n + 1, host, q);
      InOrderEarlier(LowerAll(rest), host, p + (n - i), q);
    }
    FirstThenRest(text, i, n, rest, host, p);
  }

  lemma FirstThenRest(text: string, i: nat, n: nat, rest: seq<string>, host: string, p: nat)
    requires i <= n <= |text| && InOrder(LowerAll(rest), host, p + (n - i))
    requires i < n ==> p + (n - i) <= |host| && host[p..p + (n - i)] == ToLower(text[i..n])
    ensures InOrder(LowerAll(if n > i then [text[i..n]] + rest else rest), host, p)
  {
    if n > i {
      LowerAllPrepend(text[i..n], rest);
      InOrderPrepend(ToLower(text[i..n]), LowerAll(rest), host, p);
    }
  }

  // ----- a single piece -----------------------------------------------------------------------------------

  lemma EmptyStar(items: seq<Item>, k: nat, host: string, p: nat)
    requires k < |items| && items[k] == AnyStar && p <= |host| && MatchAt(items, k + 1, host, p)
    ensures MatchAt(items, k, host, p)
  {
    assert NoNewline(host, p, p);
  }

  /** Wildcards match the empty text. */
  lemma {:induction false} OnlyStarsMatch(items: seq<Item>, text: string, i: nat, host: string, p: nat)
    requires ItemsAt(items, 0, text) && |items| == |text| && i <= |text| && p <= |host|
    requires StarPieces(text, i) == []
    ensures MatchAt(items, i, host, p)
    decreases |text| - i
  {
    if i < |text| {
      assert NextStar(text, i) == i;
      assert items[i] == AnyStar;
      OnlyStarsMatch(items, text, i + 1, host, p);
      EmptyStar(items, i, host, p);
    }
  }

  lemma {:induction false} RunMatches(items: seq<Item>, text: string, i: nat, n: nat, host: string, p: nat)
    requires ItemsAt(items, 0, text) && i <= n <= |text| && (forall j :: i <= j < n ==> text[j] != '*')
    requires IsLower(host) && p + (n - i) <= |host| && host[p..p + (n - i)] == ToLower(text[i..n])
    requires MatchAt(items, n, host, p + (n - i))
    ensures MatchAt(items, i, host, p)
    decreases n - i
  {
    if i < n {
      assert items[i] == Lit(text[i]);
      assert host[p] == host[p..p + (n - i)][0] == LowerChar(text[i]);
      assert host[p + 1..p + (n - i)] == host[p..p + (n - i)][1..] == ToLower(text[i + 1..n]);
      RunMatches(items, text, i + 1, n, host, p + 1);
    }
  }

  lemma {:induction false} OnePieceMatches(items: seq<Item>, text: string, i: nat, host: string, p: nat)
    requires ItemsAt(items, 0, text) && |items| == |text| && i <= |text| && IsLower(host)
    requires |StarPieces(text, i)| == 1 && OccursAt(host, ToLower(StarPieces(text, i)[0]), p)
    ensures MatchAt(items, i, host, p)
    decreases |text| - i
  {
    var n := NextStar(text, i);
    if n == i {
      assert items[i] == AnyStar;
      OnePieceMatches(items, text, i + 1, host, p);
      EmptyStar(items, i, host, p);
    } else {
      OnlyPiece(text[i..n], StarPiecesBehind(text, n));
      PieceThenStars(items, text, i, n, host, p);
    }
  }

  lemma OnlyPiece(piece: string, rest: seq<string>)
    requires |[piece] + rest| == 1
    ensures rest == [] && ([piece] + rest)[0] == piece
  {
  }

  lemma PieceThenStars(items: seq<Item>, text: string, i: nat, n: nat, host: string, p: nat)
    requires ItemsAt(items, 0, text) && |items| == |text| && i <= n <= |text| && IsLower(host)
    requires n == NextStar(text, i) && StarPiecesBehind(text, n) == [] && OccursAt(host, ToLower(text[i..n]), p)
    ensures MatchAt(items, i, host, p)
  {
    if n < |text| {
      assert items[n] == AnyStar;
      OnlyStarsMatch(items, text, n + 1, host, p + (n - i));
      EmptyStar(items, n, host, p + (n - i));
    }
    RunMatches(items, text, i, n, host, p);
  }

  // ----- rules ----------------------------------------------------------------------------------------------

  /** A rule that is matched by its pieces alone. */
  predicate IsWildcardRule(env: Env, line: string) {
    && Parse(env, line).Some?
    && Parse(env, line).value.method_.Shortcuts?
    && !Parse(env, line).value.pub.props.badfilter
  }

  lemma WildcardRuleIsParsed(env: Env, line: string)
    requires Trimmed(line) && IsWildcardRule(env, line)
    ensures var rule, info := Parse(env, line).value, PatternInfo(line);
            && (rule.method_, rule.parts) == ChooseMethod(env, info)
            && info.text != "" && !IsTooWide(info.text)
            && (!info.isRegex ==> IsValidDomainPattern(info.text) || IsValidIpPattern(info.text))
  {
    TrimTrims(line);
  }

  lemma ShortcutsAreChosen(env: Env, info: MatchInfo)
    requires ChooseMethod(env, info).0.Shortcuts?
    ensures !info.isRegex && info.mode == Mode(false, false, false)
    ensures ChooseMethod(env, info).1 == LowerAll(SplitByAnyOf(info.text, "*"))
  {
  }

  lemma PatternCharacters(s: string)
    requires IsValidDomainPattern(s) || IsValidIpPattern(s)
    ensures Spaceless(s) && SEP !in s
  {
  }

  lemma {:induction false} StarPiecesArePieces(text: string, i: nat)
    requires i <= |text| && SEP !in text
    ensures Pieces(StarPieces(text, i))
    decreases |text| - i
  {
    var n := NextStar(text, i);
    if n < |text| {
      StarPiecesArePieces(text, n + 1);
    }
    if n > i {
      assert forall j :: 0 <= j < n - i ==> text[i..n][j] == text[i + j] && text[i + j] in text;
    }
  }

  lemma {:induction false} SomePiece(text: string, i: nat, j: nat)
    requires i <= j < |text| && text[j] != '*'
    ensures StarPieces(text, i) != []
    decreases |text| - i
  {
    var n := NextStar(text, i);
    if n == i {
      SomePiece(text, i + 1, j);
    }
  }

  lemma LoweredPieces(parts: seq<string>)
    requires Pieces(parts)
    ensures Pieces(LowerAll(parts)) && AllLower(LowerAll(parts))
  {
    forall i | 0 <= i < |parts|
      ensures Piece(ToLower(parts[i])) && IsLower(ToLower(parts[i]))
    {
      ToLowerIsLower(parts[i]);
      var s := parts[i];
      assert forall j :: 0 <= j < |s| ==> s[j] in s && ToLower(s)[j] == LowerChar(s[j]);
    }
  }

  /** The pattern read directly, on a lower-case host, against the pieces. */
  lemma PatternAgainstPieces(text: string, host: string)
    requires IsLower(host)
    ensures Accepts(PatternItems(text), host) ==> InOrder(LowerAll(StarPieces(text, 0)), host, 0)
    ensures |StarPieces(text, 0)| == 1 && InOrder(LowerAll(StarPieces(text, 0)), host, 0) ==> Accepts(PatternItems(text), host)
  {
    var items, parts := PatternItems(text), LowerAll(StarPieces(text, 0));
    if Accepts(items, host) {
      var p: nat :| p <= |host| && MatchAt(items, 0, host, p);
      StarPiecesInOrder(items, text, 0, host, p);
      InOrderEarlier(parts, host, 0, p);
    }
    if |parts| == 1 && InOrder(parts, host, 0) {
      var q: nat :| OccursAt(host, parts[0], q) && InOrder(parts[1..], host, q + |parts[0]|);
      OnePieceMatches(items, text, 0, host, q);
    }
  }

  lemma IndexAcceptsPieces(m: Matcher, line: string, host: string)
    requires m.parse(line).Some? && m.parse(line).value.method_.Shortcuts? && !m.parse(line).value.pub.props.badfilter
    ensures IndexAccepts(m, line, host) <==> MatchShortcuts(m.parse(line).value.parts, host)
  {
  }

  /** A rule on an unanchored wildcard pattern is found for every lower-case host that the pattern accepts, and for no other
      exactly when the pattern has one piece. If the pieces are short enough, names decide this. */
  lemma WildcardRuleMeaning(env: Env, line: string)
    requires Trimmed(line) && IsWildcardRule(env, line)
    ensures forall host :: IsLower(host) && Accepts(PatternItems(PatternInfo(line).text), host) ==>
                             IndexAccepts(MatcherOf(env), line, host)
    ensures (forall host :: IsLower(host) ==>
               (IndexAccepts(MatcherOf(env), line, host) <==> Accepts(PatternItems(PatternInfo(line).text), host))) <==>
            |Parse(env, line).value.parts| == 1
    ensures FitName(Parse(env, line).value.parts) ==>
              ((forall host :: IsLower(host) && IsShortName(host) ==>
                  (IndexAccepts(MatcherOf(env), line, host) <==> Accepts(PatternItems(PatternInfo(line).text), host))) <==>
               |Parse(env, line).value.parts| == 1)
  {
    var m, text := MatcherOf(env), PatternInfo(line).text;
    var parts := Parse(env, line).value.parts;
    WildcardParts(env, line);
    forall host
      ensures IndexAccepts(m, line, host) <==> MatchShortcuts(parts, host)
    {
      IndexAcceptsPieces(m, line, host);
    }
    PiecesDecide(text, parts);
  }

  lemma WildcardParts(env: Env, line: string)
    requires Trimmed(line) && IsWildcardRule(env, line)
    ensures var parts := Parse(env, line).value.parts;
            && parts == LowerAll(StarPieces(PatternInfo(line).text, 0))
            && parts != [] && Pieces(parts) && AllLower(parts)
  {
    WildcardRuleIsParsed(env, line);
    ShortcutsAreChosen(env, PatternInfo(line));
    PiecesOfPattern(PatternInfo(line).text);
  }

  lemma PiecesOfPattern(text: string)
    requires text != "" && !IsTooWide(text) && (IsValidDomainPattern(text) || IsValidIpPattern(text))
    ensures SplitByAnyOf(text, "*") == StarPieces(text, 0)
    ensures var parts := LowerAll(StarPieces(text, 0)); parts != [] && Pieces(parts) && AllLower(parts)
  {
    PatternCharacters(text);
    SplitIsStarPieces(text, "*", 0);
    StarPiecesArePieces(text, 0);
    LoweredPieces(StarPieces(text, 0));
    var j :| 0 <= j < |text| && !(text[j] == '.' || text[j] == '*');
    SomePiece(text, 0, j);
  }

  lemma PiecesDecide(text: string, parts: seq<string>)
    requires parts == LowerAll(StarPieces(text, 0)) && parts != [] && Pieces(parts) && AllLower(parts)
    ensures forall host :: IsLower(host) && Accepts(PatternItems(text), host) ==> MatchShortcuts(parts, host)
    ensures (forall host :: IsLower(host) ==> (MatchShortcuts(parts, host) <==> Accepts(PatternItems(text), host))) <==>
            |parts| == 1
    ensures FitName(parts) ==>
              ((forall host :: IsLower(host) && IsShortName(host) ==>
                  (MatchShortcuts(parts, host) <==> Accepts(PatternItems(text), host))) <==> |parts| == 1)
  {
    forall host | IsLower(host)
      ensures Accepts(PatternItems(text), host) ==> MatchShortcuts(parts, host)
      ensures |parts| == 1 && MatchShortcuts(parts, host) ==> Accepts(PatternItems(text), host)
    {
      PatternAgainstPieces(text, host);
      if InOrder(parts, host, 0) {
        InOrderIsFound(parts, host, 0, 0);
      }
      if |parts| == 1 {
        assert parts == [parts[0]];
        OnePieceIsInOrder(parts[0], host);
      }
    }
    if |parts| > 1 {
      var host := DisorderedHost(parts);
      PatternAgainstPieces(text, host);
      assert !(MatchShortcuts(parts, host) <==> Accepts(PatternItems(text), host));
    }
  }
}
