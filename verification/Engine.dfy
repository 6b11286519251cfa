/** The engine of dnsfilter/src/engine.cpp: several filters that are asked for the rules of one name. */
module Engine {
  import opened Text
  import opened Lines
  import opened RuleSyntax
  import opened FilterSpec
  import opened FilterIndex
  import opened FilterMeaning
  import opened Filter

  // ----- several rule lists -------------------------------------------------------------------------------

  type RuleList = seq<Reported>

  /** What a scan of a list finds. */
  function Finds(m: Matcher, host: string): RuleList -> set<string> {
    lines => FoundByScan(m, lines, host)
  }

  /** What a plain scan of a list accepts. */
  function Accepted(m: Matcher, host: string): RuleList -> set<string> {
    lines => PlainScan(m, lines, host)
  }

  /** Every regular-expression rule of a list that accepts a subdomain of the host passes the gate of its leftover entry
      on the host itself. */
  ghost predicate GateIsHarmless(m: Matcher, lines: RuleList, host: string) {
    forall k :: 0 <= k < |lines| && IsRegexRule(m, lines[k].1) && LineMatches(m, lines[k].1, host) ==>
                  PassesGate(m, m.parse(lines[k].1).value, host)
  }

  ghost predicate AllTrimmed(lines: RuleList) {
    forall k :: 0 <= k < |lines| ==> Trimmed(lines[k].1)
  }

  /** A line that is lost in one list. */
  lemma HarmfulRule(m: Matcher, lines: RuleList, host: string) returns (line: string)
    requires RegexTextsAreOwn(m) && AllTrimmed(lines) && !GateIsHarmless(m, lines, host)
    ensures IsRegexRule(m, line) && !PassesGate(m, m.parse(line).value, host) && line in PlainScan(m, lines, host)
  {
    var k :| 0 <= k < |lines| && IsRegexRule(m, lines[k].1) && LineMatches(m, lines[k].1, host) &&
             !PassesGate(m, m.parse(lines[k].1).value, host);
    LostRegexRule(m, lines, host, k);
    line := lines[k].1;
  }

  /** If the gate does harm in one of the lists, then something is accepted there that is found in none. */
  lemma HarmShows(m: Matcher, lists: seq<RuleList>, host: string, i: nat)
    requires RegexTextsAreOwn(m) && (forall j :: 0 <= j < |lists| ==> AllTrimmed(lists[j]))
    requires i < |lists| && !GateIsHarmless(m, lists[i], host)
    ensures UnionOf(Finds(m, host), lists, |lists|) != UnionOf(Accepted(m, host), lists, |lists|)
  {
    var line := HarmfulRule(m, lists[i], host);
    assert line in Accepted(m, host)(lists[i]);
    InUnion(Accepted(m, host), lists, |lists|, line);
    forall j | 0 <= j < |lists|
      ensures line !in Finds(m, host)(lists[j])
    {
      LostInList(m, line, lists[j], host);
    }
    InUnion(Finds(m, host), lists, |lists|, line);
  }

  /** Over all the lists together, what the filters find is what plain scans accept exactly when the gate does no harm. */
  lemma FoundIsPlainInLists(m: Matcher, lists: seq<RuleList>, host: string)
    requires RegexTextsAreOwn(m) && (forall j :: 0 <= j < |lists| ==> AllTrimmed(lists[j]))
    ensures var found, accepted := UnionOf(Finds(m, host), lists, |lists|), UnionOf(Accepted(m, host), lists, |lists|);
            && found <= accepted
            && (found == accepted <==> forall i :: 0 <= i < |lists| ==> GateIsHarmless(m, lists[i], host))
  {
    forall i | 0 <= i < |lists|
      ensures Finds(m, host)(lists[i]) <= Accepted(m, host)(lists[i])
      ensures GateIsHarmless(m, lists[i], host) ==> Finds(m, host)(lists[i]) == Accepted(m, host)(lists[i])
    {
      FoundIsPlainScan(m, lists[i], host);
    }
    UnionGrows(Finds(m, host), Accepted(m, host), lists, |lists|);
    if i :| 0 <= i < |lists| && !GateIsHarmless(m, lists[i], host) {
      HarmShows(m, lists, host, i);
    }
  }

  // ----- the engine ---------------------------------------------------------------------------------------

  /** What a filter holds. */
  datatype Tables = Tables(source: Source, unique: map<nat, nat>, multi: map<nat, seq<nat>>,
                           shortcuts: map<nat, seq<nat>>, leftovers: seq<Leftover>)

  /** The list that a filter's tables hold completely, put there by a parser that the filter can rely on. */
  ghost function ListIn(m: Matcher, t: Tables): Option<RuleList> {
    var lines := ReportedLines(t.source);
    if ParsesSoundly(m) && DomainsIndex(t.unique, t.multi, Places(m, lines)) && ShortcutsIndex(t.shortcuts, Places(m, lines))
       && t.leftovers == Leftovers(Places(m, lines))
    then Some(lines) else None
  }

  ghost function Held(m: Matcher): Tables -> Option<RuleList> {
    t => ListIn(m, t)
  }

  /** The lists of several filters, if each holds its own completely. */
  ghost function ListsIn(m: Matcher, ts: seq<Tables>): Option<seq<RuleList>> {
    Collect(Held(m), ts)
  }

  lemma ListsAreTrimmed(m: Matcher, ts: seq<Tables>, lists: seq<RuleList>)
    requires ListsIn(m, ts) == Some(lists)
    ensures |lists| == |ts| && forall j :: 0 <= j < |lists| ==> AllTrimmed(lists[j])
  {
    CollectAt(Held(m), ts, lists);
    forall j | 0 <= j < |ts|
      ensures AllTrimmed(lists[j])
    {
      ListIsTrimmed(m, ts[j]);
    }
  }

  lemma ListIsTrimmed(m: Matcher, t: Tables)
    ensures ListIn(m, t).Some? ==> AllTrimmed(ListIn(m, t).value)
  {
    var lines := ReportedLines(t.source);
    forall k | 0 <= k < |lines|
      ensures Trimmed(lines[k].1)
    {
      LinesAreTrimmed(t.source, k);
    }
  }

  class Engine {
    const m: Matcher
    var filters: seq<Filter>

    ghost function TablesOf(f: Filter): Tables
      reads f
    {
      Tables(f.source, f.uniqueDomains, f.domains, f.shortcuts, f.leftovers)
    }

    /** The filters hold these tables. */
    ghost predicate Holds(ts: seq<Tables>)
      reads this, filters
    {
      |filters| == |ts| && forall i :: 0 <= i < |ts| ==> filters[i].m == m && TablesOf(filters[i]) == ts[i]
    }

    constructor (env: Env)
      ensures m == MatcherOf(env) && ParsesSoundly(m) && RegexTextsAreOwn(m) && Holds([])
    {
      m, filters := MatcherOf(env), [];
      MatcherIsSound(env);
      MatcherKeepsRegexTexts(env);
    }

    method Load(source: Source) returns (f: Filter, ghost t: Tables)
      requires ParsesSoundly(m)
      ensures fresh(f) && f.m == m && TablesOf(f) == t && ListIn(m, t) == Some(ReportedLines(source))
    {
      f := new Filter(m);
      f.Load(source);
      t := TablesOf(f);
    }

    /** One more list is loaded completely. */
    method Add(source: Source, ghost ts: seq<Tables>, ghost lists: seq<RuleList>) returns (ghost t: Tables)
      requires Holds(ts) && ListsIn(m, ts) == Some(lists) && ParsesSoundly(m)
      modifies this
      ensures Holds(ts + [t]) && ListsIn(m, ts + [t]) == Some(lists + [ReportedLines(source)])
    {
      var f;
      f, t := Load(source);
      filters := filters + [f];
      assert (ts + [t])[..|ts|] == ts;
    }

    /** The texts found so far, in a context of this parser. */
    ghost function Found(ctx: MatchContext): Option<set<string>>
      reads ctx
    {
      if ctx.Valid(m) then Some(Texts(ctx.matchedRules)) else None
    }

    /** One filter adds what a scan of its list finds. */
    method MatchOne(f: Filter, ctx: MatchContext, ghost list: RuleList)
      requires f.m == m && ListIn(m, TablesOf(f)) == Some(list) && Found(ctx).Some?
      modifies ctx`matchedRules
      ensures Found(ctx) == Some(old(Found(ctx)).value + Finds(m, ctx.host)(list))
    {
      f.Match(ctx);
    }

    method MatchIn(f: Filter, ctx: MatchContext, ghost ts: seq<Tables>, ghost lists: seq<RuleList>, ghost i: nat)
      requires i < |ts| && ListsIn(m, ts) == Some(lists) && f.m == m && TablesOf(f) == ts[i]
      requires |lists| == |ts| && Found(ctx) == Some(UnionOf(Finds(m, ctx.host), lists, i))
      modifies ctx`matchedRules
      ensures Found(ctx) == Some(UnionOf(Finds(m, ctx.host), lists, i + 1))
    {
      CollectAt(Held(m), ts, lists);
      MatchOne(f, ctx, lists[i]);
    }

    method MatchAll(ctx: MatchContext, ghost ts: seq<Tables>, ghost lists: seq<RuleList>)
      requires Holds(ts) && ListsIn(m, ts) == Some(lists) && |lists| == |ts| && Found(ctx) == Some({})
      modifies ctx`matchedRules
      ensures Found(ctx) == Some(UnionOf(Finds(m, ctx.host), lists, |lists|))
    {
      for i := 0 to |filters|
        invariant Found(ctx) == Some(UnionOf(Finds(m, ctx.host), lists, i))
      {
        MatchIn(filters[i], ctx, ts, lists, i);
      }
    }

    /** The rules found for a name in all the lists are those that scans of the lists find; they are those that plain scans
        accept exactly when the gate on regular expressions does no harm. */
    method Match(name: string, ghost ts: seq<Tables>, ghost lists: seq<RuleList>) returns (rules: seq<Rule>)
      requires Holds(ts) && ListsIn(m, ts) == Some(lists) && RegexTextsAreOwn(m)
      ensures var host, n := ToLower(name), |lists|;
              && Texts(rules) == UnionOf(Finds(m, host), lists, n) <= UnionOf(Accepted(m, host), lists, n)
              && (Texts(rules) == UnionOf(Accepted(m, host), lists, n) <==>
                  forall i :: 0 <= i < n ==> GateIsHarmless(m, lists[i], host))
    {
      ListsAreTrimmed(m, ts, lists);
      var ctx := CreateMatchContext(name);
      assert Texts(ctx.matchedRules) == {};
      MatchAll(ctx, ts, lists);
      rules := ctx.matchedRules;
      FoundIsPlainInLists(m, lists, ctx.host);
    }
  }
}
