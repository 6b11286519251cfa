/** Hosts rules among the matched rules: whatever rules were parsed, hosts rules carry no modifiers and no badfilter rule
    is written for them (dnsfilter/src/rule_utils.cpp, dnsfilter/src/engine.cpp). */
module HostsRules {
  import opened Text
  import opened RuleSyntax
  import opened EffectiveRules

  /** All delimiters are spaces. */
  ghost predicate Blanks(delims: string) {
    forall c :: c in delims ==> IsSpace(c)
  }

  /** An address has no modifier marker in it. */
  ghost predicate AddressesLackMarker(env: Env) {
    forall s :: env.numericHost(s).Some? ==> '$' !in s
  }

  // ----- the first piece of a line ------------------------------------------------------------------------

  lemma {:induction false} PieceBehind(s: string, delims: string, from: nat, i: nat)
    requires from <= i < |s| && !IsSpace(s[i]) && Blanks(delims)
    ensures |SplitFrom(s, delims, from)| > 0
    decreases |s| - from
  {
    var end := FindFirstOf(s, delims, from);
    SomePiece(s, delims, from);
    assert end != i;
    if end < i {
      PieceBehind(s, delims, end + 1, i);
    } else {
      KeptInPiece(s, from, end, i);
    }
  }

  lemma KeptInPiece(s: string, from: nat, end: nat, i: nat)
    requires from <= i < end <= |s| && !IsSpace(s[i])
    ensures Trim(s[from..end]) != ""
  {
    assert s[from..end][i - from] == s[i];
    KeptByTrim(s[from..end], i - from);
  }

  lemma SomePiece(s: string, delims: string, from: nat)
    requires from <= |s|
    ensures var end := FindFirstOf(s, delims, from);
            |SplitFrom(s, delims, from)| > 0 <==>
            Trim(s[from..end]) != "" || (end < |s| && |SplitFrom(s, delims, end + 1)| > 0)
  {
  }

  /** A character that is no space is kept by trimming. */
  lemma KeptByTrim(s: string, i: nat)
    requires i < |s| && !IsSpace(s[i])
    ensures s[i] in Trim(s)
  {
    var start := SkipSpaces(s, 0);
    SkipsOnlySpaces(s, 0, i);
    SkipsOnlySpacesBack(s, start, |s|, i);
    assert Trim(s)[i - start] == s[i];
  }

  lemma {:induction false} SkipsOnlySpaces(s: string, from: nat, i: nat)
    requires from <= i < |s| && !IsSpace(s[i])
    ensures SkipSpaces(s, from) <= i
    decreases |s| - from
  {
    if from < i && IsSpace(s[from]) {
      SkipsOnlySpaces(s, from + 1, i);
    }
  }

  lemma {:induction false} SkipsOnlySpacesBack(s: string, lo: nat, hi: nat, i: nat)
    requires lo <= i < hi <= |s| && !IsSpace(s[i])
    ensures i < SkipSpacesBack(s, lo, hi)
    decreases hi
  {
    if IsSpace(s[hi - 1]) {
      SkipsOnlySpacesBack(s, lo, hi - 1, i);
    }
  }

  /** The first piece of a line that is in several pieces. */
  ghost function FirstOfMore(s: string, delims: string): Option<string> {
    var pieces := SplitByAnyOf(s, delims);
    if |pieces| > 1 then Some(pieces[0]) else None
  }

  /** What stands before position `end`, when there is a piece behind it. */
  ghost function MoreBehind(s: string, delims: string, end: nat): Option<string>
    requires end <= |s|
  {
    if end < |s| && |SplitFrom(s, delims, end + 1)| > 0 then Some(Trim(s[0..end])) else None
  }

  /** The first piece of a line that does not start with a space ends at the first delimiter. */
  lemma FirstPiece(s: string, delims: string)
    requires s != "" && !IsSpace(s[0]) && Blanks(delims)
    ensures FirstOfMore(s, delims) == MoreBehind(s, delims, FindFirstOf(s, delims, 0))
  {
    var end := FindFirstOf(s, delims, 0);
    assert s[0] !in delims;
    KeptByTrim(s[0..end], 0);
  }

  // ----- what a badfilter rule can cancel ---------------------------------------------------------------------

  /** The text a badfilter rule is written for is its pattern, or starts with its pattern and the marker. */
  lemma CancelledText(b: string, x: string, mods: string)
    requires RSplit2(b, '$') == (x, mods) && b == x + "$" + mods && Find(mods, BADFILTER, 0).Some?
    ensures TextWithoutBadfilter(b) == x || StartsWith(TextWithoutBadfilter(b), x + "$")
  {
    var i := Find(mods, BADFILTER, 0).value;
    JoinedText(x, mods[..i], mods[i + |BADFILTER|..]);
  }

  lemma JoinedText(x: string, before: string, after: string)
    ensures JoinAround(x + "$" + before, after) == x || StartsWith(JoinAround(x + "$" + before, after), x + "$")
  {
    var p := x + "$" + before;
    if before == "" {
      assert p == x + "$";
      assert p[..|p| - 1] == x;
      assert x + "" == x;
    } else {
      assert p[..|x| + 1] == x + "$";
      assert p[..|p| - 1][..|x| + 1] == x + "$";
    }
  }

  /** A line and the start of it have the same first piece, when a delimiter ends it there. */
  lemma SameFirstPiece(b: string, h: string, delims: string, n: nat)
    requires n <= |b| && n <= |h| && b[..n] == h[..n] && FindFirstOf(h, delims, 0) < n
    ensures FindFirstOf(b, delims, 0) == FindFirstOf(h, delims, 0)
    ensures var end := FindFirstOf(h, delims, 0); b[0..end] == h[0..end]
  {
    var end := FindFirstOf(h, delims, 0);
    assert forall i :: 0 <= i <= end ==> b[i] == b[..n][i] && h[i] == h[..n][i];
  }

  /** When the delimiter comes behind the marker, the first piece holds the marker. */
  lemma MarkerInFirstPiece(h: string, delims: string, x: string)
    requires |x| <= FindFirstOf(h, delims, 0) < |h| && (h == x || StartsWith(h, x + "$")) && Blanks(delims)
    ensures '$' in Trim(h[0..FindFirstOf(h, delims, 0)])
  {
    var end := FindFirstOf(h, delims, 0);
    assert h[|x|] == h[..|x| + 1][|x|] == '$';
    assert h[0..end][|x|] == '$';
    KeptByTrim(h[0..end], |x|);
  }

  lemma StartsWithPattern(h: string, x: string)
    requires h == x || StartsWith(h, x + "$")
    ensures |x| <= |h| && h[..|x|] == x
  {
    if h != x {
      assert h[..|x| + 1][..|x|] == x;
    }
  }

  /** If the text that is left is in two pieces and the first holds no marker, so is the badfilter rule, with the same
      first piece. */
  lemma PiecesComeFromPattern(b: string, h: string, x: string, delims: string, first: string)
    requires StartsWith(b, x + "$") && b != "" && !IsSpace(b[0]) && h != "" && !IsSpace(h[0]) && Blanks(delims)
    requires (h == x || StartsWith(h, x + "$")) && FirstOfMore(h, delims) == Some(first) && '$' !in first
    ensures FirstOfMore(b, delims) == Some(first)
  {
    FirstPiece(h, delims);
    FirstPiece(b, delims);
    SameMoreBehind(b, h, x, delims, first);
  }

  lemma SameMoreBehind(b: string, h: string, x: string, delims: string, first: string)
    requires StartsWith(b, x + "$") && Blanks(delims) && (h == x || StartsWith(h, x + "$")) && '$' !in first
    requires MoreBehind(h, delims, FindFirstOf(h, delims, 0)) == Some(first)
    ensures MoreBehind(b, delims, FindFirstOf(b, delims, 0)) == Some(first)
  {
    var end := FindFirstOf(h, delims, 0);
    StartsWithPattern(h, x);
    StartsWithPattern(b, x);
    if end < |x| {
      SameFirstPiece(b, h, delims, |x|);
      MarkerBehind(b, x, delims, end);
    } else {
      MarkerInFirstPiece(h, delims, x);
    }
  }

  lemma MarkerBehind(b: string, x: string, delims: string, end: nat)
    requires StartsWith(b, x + "$") && end < |x| && Blanks(delims)
    ensures |SplitFrom(b, delims, end + 1)| > 0
  {
    assert b[|x|] == b[..|x| + 1][|x|] == '$';
    PieceBehind(b, delims, end + 1, |x|);
  }

  lemma BlanksAreSpaces()
    ensures Blanks(" \t")
  {
    var delims := " \t";
    assert forall i :: 0 <= i < |delims| ==> delims[i] == ' ' || delims[i] == '\t';
  }

  /** If the text that is left has the syntax of a hosts line, so has the badfilter rule itself. */
  lemma HostsSyntaxComesFromPattern(env: Env, b: string, h: string, x: string)
    requires AddressesLackMarker(env) && StartsWith(b, x + "$") && b != "" && !IsSpace(b[0]) && h != "" && !IsSpace(h[0])
    requires (h == x || StartsWith(h, x + "$")) && IsHostRule(env, h)
    ensures IsHostRule(env, b)
  {
    BlanksAreSpaces();
    PiecesComeFromPattern(b, h, x, " \t", SplitByAnyOf(h, " \t")[0]);
  }

  // ----- parsed rules -------------------------------------------------------------------------------------------

  lemma BadfilterHasModifier(env: Env, b: string)
    requires Trimmed(b) && Parse(env, b).Some? && Parse(env, b).value.pub.props.badfilter
    ensures b != "" && Parse(env, b).value.pub.text == b && !IsHostRule(env, b)
  {
    TrimTrims(b);
  }

  /** No badfilter rule is written for a hosts rule. */
  lemma HostsRuleIsNotCancelled(env: Env, line: string, b: string)
    requires AddressesLackMarker(env) && Trimmed(line) && Trimmed(b)
    requires Parse(env, line).Some? && Parse(env, line).value.pub.ip.Some?
    requires Parse(env, b).Some? && Parse(env, b).value.pub.props.badfilter
    ensures TextWithoutBadfilter(b) != Parse(env, line).value.pub.text
  {
    var h := Parse(env, line).value.pub.text;
    HostsText(env, line);
    BadfilterHasModifier(env, b);
    var (x, mods) := RSplit2(b, '$');
    if Find(mods, BADFILTER, 0).Some? {
      SplitAtMarker(b);
      CancelledText(b, x, mods);
      if TextWithoutBadfilter(b) == h {
        HostsSyntaxComesFromPattern(env, b, h, x);
      }
    }
  }

  lemma SplitAtMarker(b: string)
    requires RSplit2(b, '$').1 != ""
    ensures b == RSplit2(b, '$').0 + "$" + RSplit2(b, '$').1
  {
    var i := RFind(b, "$").value;
    assert b[i..i + 1] == "$";
    assert b == b[..i] + b[i..i + 1] + b[i + 1..];
  }

  lemma HostsText(env: Env, line: string)
    requires Trimmed(line) && Parse(env, line).Some? && Parse(env, line).value.pub.ip.Some?
    ensures var h := Parse(env, line).value.pub.text; h != "" && !IsSpace(h[0]) && IsHostRule(env, h)
  {
    TrimTrims(line);
    WithoutCommentFacts(line);
  }

  /** The rules that were parsed from some lines. */
  ghost predicate Parsed(env: Env, lines: seq<string>, rules: seq<Rule>) {
    |rules| == |lines| && forall i :: 0 <= i < |lines| ==>
      Trimmed(lines[i]) && Parse(env, lines[i]).Some? && Parse(env, lines[i]).value.pub == rules[i]
  }

  /** So what EffectiveMeaning asks of hosts rules holds of all parsed rules. */
  lemma ParsedHostsArePlain(env: Env, lines: seq<string>, rules: seq<Rule>)
    requires AddressesLackMarker(env) && Parsed(env, lines, rules)
    ensures HostsArePlain(rules)
  {
    forall r | r in rules && r.ip.Some?
      ensures r.props == NO_PROPS && r.text !in CancelledTexts(rules)
    {
      var i :| 0 <= i < |rules| && rules[i] == r;
      HostsRulesArePlain(env, lines[i]);
      InCancelledTexts(rules, r.text);
      forall j | 0 <= j < |rules| && rules[j].props.badfilter
        ensures r.text != TextWithoutBadfilter(rules[j].text)
      {
        BadfilterHasModifier(env, lines[j]);
        HostsRuleIsNotCancelled(env, lines[i], lines[j]);
      }
    }
  }
}
