/** The shortcut gate: before a regular expression is tried on a host, the literal pieces of the rule
    are looked for (dnsfilter/src/filter.cpp, dnsfilter/src/rule_utils.cpp). */
module Shortcuts {
  import opened Text
  import opened RuleSyntax

  // ----- match_shortcuts ------------------------------------------------------------------------

  /** Each piece is looked for from the sum of the lengths of those before it, wherever they were. */
  predicate MatchFrom(parts: seq<string>, host: string, seek: nat) {
    parts == [] || (Find(host, parts[0], seek).Some? && MatchFrom(parts[1..], host, seek + |parts[0]|))
  }

  predicate MatchShortcuts(parts: seq<string>, host: string) {
    parts != [] && MatchFrom(parts, host, 0)
  }

  method MatchShortcutsLoop(parts: seq<string>, host: string) returns (found: bool)
    ensures found == MatchShortcuts(parts, host)
  {
    var seek: nat := 0;
    found := false;
    var i := 0;
    while i < |parts|
      invariant 0 <= i <= |parts|
      invariant found <==> i > 0
      invariant MatchFrom(parts, host, 0) <==> MatchFrom(parts[i..], host, seek)
    {
      found := Find(host, parts[i], seek).Some?;
      if !found {
        break;
      }
      assert parts[i..][1..] == parts[i + 1..];
      seek := seek + |parts[i]|;
      i := i + 1;
    }
  }

  /** What the rule syntax promises: the pieces occur one after the other, from `from` on. */
  ghost predicate InOrder(parts: seq<string>, host: string, from: nat)
    decreases |parts|
  {
    parts == [] ||
    exists q: nat :: from <= q && OccursAt(host, parts[0], q) && InOrder(parts[1..], host, q + |parts[0]|)
  }

  lemma InOrderEarlier(parts: seq<string>, host: string, from: nat, later: nat)
    requires from <= later && InOrder(parts, host, later)
    ensures InOrder(parts, host, from)
  {
  }

  /** Pieces that occur in order are always found. */
  lemma {:induction false} InOrderIsFound(parts: seq<string>, host: string, from: nat, seek: nat)
    requires seek <= from && InOrder(parts, host, from)
    ensures MatchFrom(parts, host, seek)
    decreases |parts|
  {
    if parts != [] {
      var q: nat :| from <= q && OccursAt(host, parts[0], q) && InOrder(parts[1..], host, q + |parts[0]|);
      InOrderIsFound(parts[1..], host, q + |parts[0]|, seek + |parts[0]|);
    }
  }

  // ----- the regular expressions built from patterns ----------------------------------------------

  /** The part of the regular expression language `get_regex` writes. */
  datatype Item =
    | Lit(c: char)       // a character, in either case
    | AnyStar            // .*
    | LineStart          // ^
    | LineEnd            // $
    | OptSubdomain       // (.*\.)?

  function Tokenize(re: string): seq<Item>
    decreases |re|
  {
    if re == "" then []
    else if StartsWith(re, "(.*\\.)?") then [OptSubdomain] + Tokenize(re[7..])
    else if re[0] == '^' then [LineStart] + Tokenize(re[1..])
    else if re[0] == '$' then [LineEnd] + Tokenize(re[1..])
    else if |re| > 1 && re[0] == '.' && re[1] == '*' then [AnyStar] + Tokenize(re[2..])
    else if |re| > 1 && re[0] == '\\' then [Lit(re[1])] + Tokenize(re[2..])
    else [Lit(re[0])] + Tokenize(re[1..])
  }

  predicate NoNewline(s: string, p: nat, q: nat) {
    forall i :: p <= i < q && i < |s| ==> s[i] != '\n'
  }

  /** The items from `k` on match `s` from position `p` on. */
  ghost predicate MatchAt(items: seq<Item>, k: nat, s: string, p: nat)
    requires k <= |items|
    decreases |items| - k
  {
    if k == |items| then true
    else match items[k]
      case Lit(c) => p < |s| && LowerChar(s[p]) == LowerChar(c) && MatchAt(items, k + 1, s, p + 1)
      case AnyStar => exists q: nat :: p <= q <= |s| && NoNewline(s, p, q) && MatchAt(items, k + 1, s, q)
      case LineStart => p == 0 && MatchAt(items, k + 1, s, p)
      case LineEnd => (p == |s| || (p == |s| - 1 && s[p] == '\n')) && MatchAt(items, k + 1, s, p)
      case OptSubdomain =>
        || MatchAt(items, k + 1, s, p)
        || exists q: nat :: p <= q < |s| && NoNewline(s, p, q) && s[q] == '.' && MatchAt(items, k + 1, s, q + 1)
  }

  /** A regular expression accepts a subject when it matches from some position on. */
  ghost predicate Accepts(items: seq<Item>, s: string) {
    exists p: nat :: p <= |s| && MatchAt(items, 0, s, p)
  }

  /** A pattern whose only special characters are the wildcard and the dot. Domain patterns are of
      this kind, and so are address patterns without brackets. */
  predicate IsPlainPattern(s: string) {
    forall i :: 0 <= i < |s| && IsSpecial(s[i]) ==> s[i] == '.' || s[i] == '*'
  }

  lemma DomainPatternsArePlain(s: string)
    ensures IsValidDomainPattern(s) ==> IsPlainPattern(s)
    ensures IsValidIpPattern(s) && '[' !in s && ']' !in s ==> IsPlainPattern(s)
  {
  }

  function ItemOf(c: char): Item {
    if c == '*' then AnyStar else Lit(c)
  }

  function PatternItems(s: string): (r: seq<Item>)
    ensures |r| == |s|
  {
    seq(|s|, i requires 0 <= i < |s| => ItemOf(s[i]))
  }

  function StartItems(mode: Mode): seq<Item> {
    if mode.lineStart then [LineStart] else if mode.domainStart then [LineStart, OptSubdomain] else []
  }

  function InfoItems(info: MatchInfo): seq<Item> {
    StartItems(info.mode) + (PatternItems(info.text) + EndItems(info.mode))
  }

  lemma {:induction false} EscapeConcat(a: string, b: string)
    ensures Escape(a + b) == Escape(a) + Escape(b)
  {
    if a == "" {
      assert a + b == b;
    } else {
      assert (a + b)[1..] == a[1..] + b;
      EscapeConcat(a[1..], b);
    }
  }

  lemma TokenizeChar(c: char, rest: string)
    requires IsSpecial(c) ==> c == '.' || c == '*'
    ensures Tokenize(EscapeGuard(c) + [c] + rest) == [ItemOf(c)] + Tokenize(rest)
  {
    var re := EscapeGuard(c) + [c] + rest;
    assert re[0] != '(';
    if c == '*' || c == '.' {
      assert re[2..] == rest;
    } else {
      assert re[1..] == rest;
    }
  }

  lemma PatternItemsStep(text: string, rest: seq<Item>)
    requires text != ""
    ensures PatternItems(text) + rest == [ItemOf(text[0])] + (PatternItems(text[1..]) + rest)
  {
    assert PatternItems(text) == [ItemOf(text[0])] + PatternItems(text[1..]);
  }

  lemma EscapeTextStep(text: string, rest: string)
    requires text != ""
    ensures Escape(text) + rest == EscapeGuard(text[0]) + [text[0]] + (Escape(text[1..]) + rest)
  {
  }

  lemma {:induction false} TokenizeText(text: string, rest: string)
    requires IsPlainPattern(text)
    ensures Tokenize(Escape(text) + rest) == PatternItems(text) + Tokenize(rest)
  {
    if text == "" {
      assert Escape(text) + rest == rest;
      assert PatternItems(text) == [];
    } else {
      var c, tail := text[0], text[1..];
      assert IsPlainPattern(tail);
      TokenizeText(tail, rest);
      TokenizeChar(c, Escape(tail) + rest);
      EscapeTextStep(text, rest);
      PatternItemsStep(text, Tokenize(rest));
    }
  }

  lemma TokenizeStart(mode: Mode, rest: string)
    ensures Tokenize(Escape(StartText(mode)) + rest) == StartItems(mode) + Tokenize(rest)
  {
    if mode.lineStart {
      assert Escape("^") == "^" by { assert "^"[1..] == ""; }
      assert ("^" + rest)[1..] == rest;
    } else if mode.domainStart {
      EscapeDomainStart();
      var re := "^(.*\\.)?" + rest;
      assert re[1..] == "(.*\\.)?" + rest;
      assert re[1..][..7] == "(.*\\.)?";
      assert re[1..][7..] == rest;
    } else {
      assert Escape("") + rest == rest;
    }
  }

  lemma EscapeTwo(a: char, b: char)
    ensures Escape([a, b]) == EscapeGuard(a) + [a] + (EscapeGuard(b) + [b])
  {
    assert [a, b][1..] == [b] && [b][1..] == "";
    assert Escape([b]) == EscapeGuard(b) + [b];
  }

  lemma EscapeDomainStart()
    ensures Escape("^(*.)?") == "^(.*\\.)?"
  {
    EscapeTwo('^', '(');
    EscapeTwo('*', '.');
    EscapeTwo(')', '?');
    EscapeConcat("*.", ")?");
    EscapeConcat("^(", "*." + ")?");
    assert "^(*.)?" == "^(" + ("*." + ")?");
  }

  function EndItems(mode: Mode): seq<Item> {
    if mode.lineEnd then [LineEnd] else []
  }

  lemma TokenizeEnd(mode: Mode)
    ensures Tokenize(Escape(EndText(mode))) == EndItems(mode)
  {
    assert "$"[1..] == "";
    assert Escape("$") == "$";
  }

  /** The text `get_regex` writes for a pattern reads as the pattern's own items. */
  lemma RegexReadsAsPattern(info: MatchInfo)
    requires !info.isRegex && IsPlainPattern(info.text)
    ensures Tokenize(RegexOf(info)) == InfoItems(info)
  {
    var start, end := StartText(info.mode), EndText(info.mode);
    EscapeConcat(start, info.text + end);
    EscapeConcat(info.text, end);
    TokenizeStart(info.mode, Escape(info.text) + Escape(end));
    TokenizeText(info.text, Escape(end));
    TokenizeEnd(info.mode);
  }

  // ----- the gate never loses a match -------------------------------------------------------------

  /** Where `text` stands among the items. */
  ghost predicate ItemsAt(items: seq<Item>, o: nat, text: string) {
    o + |text| <= |items| && forall j :: 0 <= j < |text| ==> items[o + j] == ItemOf(text[j])
  }

  lemma {:induction false} LiteralRun(items: seq<Item>, o: nat, text: string, i: nat, n: nat, host: string, p: nat)
    requires ItemsAt(items, o, text) && i <= n <= |text|
    requires forall j :: i <= j < n ==> text[j] != '*'
    requires IsLower(host) && MatchAt(items, o + i, host, p)
    ensures p + (n - i) <= |host| || i == n
    ensures i < n ==> host[p..p + (n - i)] == ToLower(text[i..n])
    ensures MatchAt(items, o + n, host, p + (n - i))
    decreases n - i
  {
    if i < n {
      assert items[o + i] == Lit(text[i]);
      LiteralRun(items, o, text, i + 1, n, host, p + 1);
      assert host[p] == LowerChar(text[i]);
      if i + 1 < n {
        assert host[p..p + (n - i)] == [host[p]] + host[p + 1..p + (n - i)];
        assert ToLower(text[i..n]) == [LowerChar(text[i])] + ToLower(text[i + 1..n]);
      } else {
        assert host[p..p + 1] == [host[p]];
      }
    }
  }

  /** The pieces from `i` on: the run at `i`, if any, then those after the special character. */
  function RestOfPieces(text: string, i: nat): seq<string>
    requires i <= |text|
  {
    var n := RunEnd(text, i);
    if n == |text| then [] else RegexShortcuts(text, n + SpecialLength(text, n))
  }

  lemma PiecesFrom(text: string, i: nat)
    requires i <= |text|
    ensures var n := RunEnd(text, i);
            RegexShortcuts(text, i) == (if n > i then [text[i..n]] else []) + RestOfPieces(text, i)
  {
  }

  lemma LowerAllPrepend(piece: string, rest: seq<string>)
    ensures LowerAll([piece] + rest) == [ToLower(piece)] + LowerAll(rest)
  {
  }

  lemma InOrderPrepend(piece: string, rest: seq<string>, host: string, p: nat)
    requires OccursAt(host, piece, p) && InOrder(rest, host, p + |piece|)
    ensures InOrder([piece] + rest, host, p)
  {
    var all := [piece] + rest;
    assert all[1..] == rest && OccursAt(host, all[0], p);
  }

  lemma RestOfPlainPieces(text: string, i: nat)
    requires i <= |text| && IsPlainPattern(text) && RunEnd(text, i) < |text|
    ensures RestOfPieces(text, i) == RegexShortcuts(text, RunEnd(text, i) + 1)
  {
  }

  lemma CombinePieces(text: string, i: nat, host: string, p: nat)
    requires i <= |text|
    requires var n := RunEnd(text, i);
             && InOrder(LowerAll(RestOfPieces(text, i)), host, p + (n - i))
             && (n > i ==> p + (n - i) <= |host| && host[p..p + (n - i)] == ToLower(text[i..n]))
    ensures InOrder(LowerAll(RegexShortcuts(text, i)), host, p)
  {
    var n := RunEnd(text, i);
    var rest := RestOfPieces(text, i);
    PiecesFrom(text, i);
    if n > i {
      LowerAllPrepend(text[i..n], rest);
      InOrderPrepend(ToLower(text[i..n]), LowerAll(rest), host, p);
    } else {
      assert [] + rest == rest;
    }
  }

  /** A dot or a wildcard moves on to a later position. */
  lemma SpecialStep(items: seq<Item>, o: nat, text: string, n: nat, host: string, p: nat) returns (q: nat)
    requires ItemsAt(items, o, text) && n < |text| && (text[n] == '.' || text[n] == '*')
    requires MatchAt(items, o + n, host, p)
    ensures p <= q && MatchAt(items, o + n + 1, host, q)
  {
    assert items[o + n] == ItemOf(text[n]);
    if text[n] == '.' {
      q := p + 1;
    } else {
      q :| p <= q <= |host| && NoNewline(host, p, q) && MatchAt(items, o + n + 1, host, q);
    }
  }

  /** From one run of ordinary characters to the position where the next one is looked for. */
  lemma NextRun(items: seq<Item>, o: nat, text: string, i: nat, host: string, p: nat) returns (q: nat)
    requires ItemsAt(items, o, text) && i <= |text| && IsPlainPattern(text)
    requires IsLower(host) && MatchAt(items, o + i, host, p)
    ensures var n := RunEnd(text, i);
            && (n > i ==> p + (n - i) <= |host| && host[p..p + (n - i)] == ToLower(text[i..n]))
            && (n < |text| ==> p + (n - i) <= q && MatchAt(items, o + n + 1, host, q))
  {
    var n := RunEnd(text, i);
    LiteralRun(items, o, text, i, n, host, p);
    q := p;
    if n < |text| {
      q := SpecialStep(items, o, text, n, host, p + (n - i));
    }
  }

  lemma {:induction false} PiecesInOrder(items: seq<Item>, o: nat, text: string, i: nat, host: string, p: nat)
    requires ItemsAt(items, o, text) && i <= |text| && IsPlainPattern(text)
    requires IsLower(host) && MatchAt(items, o + i, host, p)
    ensures InOrder(LowerAll(RegexShortcuts(text, i)), host, p)
    decreases |text| - i
  {
    var n := RunEnd(text, i);
    var q := NextRun(items, o, text, i, host, p);
    if n < |text| {
      PiecesInOrder(items, o, text, n + 1, host, q);
      RestInOrder(text, i, host, p + (n - i), q);
    }
    CombinePieces(text, i, host, p);
  }

  lemma RestInOrder(text: string, i: nat, host: string, from: nat, later: nat)
    requires i <= |text| && IsPlainPattern(text) && RunEnd(text, i) < |text|
    requires from <= later && InOrder(LowerAll(RegexShortcuts(text, RunEnd(text, i) + 1)), host, later)
    ensures InOrder(LowerAll(RestOfPieces(text, i)), host, from)
  {
    RestOfPlainPieces(text, i);
    InOrderEarlier(LowerAll(RestOfPieces(text, i)), host, from, later);
  }

  lemma SkipStart(items: seq<Item>, mode: Mode, host: string, p: nat) returns (q: nat)
    requires StartItems(mode) <= items && MatchAt(items, 0, host, p)
    ensures MatchAt(items, |StartItems(mode)|, host, q)
  {
    q := p;
    if !mode.lineStart && mode.domainStart {
      assert items[0] == LineStart && items[1] == OptSubdomain;
      assert MatchAt(items, 1, host, p);
      if !MatchAt(items, 2, host, p) {
        var r: nat :| p <= r < |host| && NoNewline(host, p, r) && host[r] == '.' && MatchAt(items, 2, host, r + 1);
        q := r + 1;
      }
    } else if mode.lineStart {
      assert items[0] == LineStart;
    }
  }

  /** Whenever the regular expression of a plain pattern accepts a lower-case host, the pieces of the
      pattern occur in it in order, and the gate lets the host through. */
  lemma GateKeepsMatches(info: MatchInfo, host: string)
    requires !info.isRegex && IsPlainPattern(info.text) && IsLower(host)
    requires Accepts(Tokenize(RegexOf(info)), host)
    ensures InOrder(LowerAll(RegexShortcuts(info.text, 0)), host, 0)
    ensures RegexShortcuts(info.text, 0) != [] ==> MatchShortcuts(LowerAll(RegexShortcuts(info.text, 0)), host)
  {
    RegexReadsAsPattern(info);
    var items := InfoItems(info);
    var p: nat :| p <= |host| && MatchAt(items, 0, host, p);
    var o := |StartItems(info.mode)|;
    var q := SkipStart(items, info.mode, host, p);
    assert ItemsAt(items, o, info.text);
    PiecesInOrder(items, o, info.text, 0, host, q);
    var parts := LowerAll(RegexShortcuts(info.text, 0));
    InOrderEarlier(parts, host, 0, q);
    InOrderIsFound(parts, host, 0, 0);
  }
}
