/** Which of the matched rules decide: `get_effective_rules` of dnsfilter/src/engine.cpp, and the
    accumulation of rules along a response in `apply_filter` of proxy/src/dns_forwarder.cpp. */
module EffectiveRules {
  import opened Text
  import opened RuleSyntax
  import opened RuleText

  // ----- priority -------------------------------------------------------------------------------

  /** In ascending order: the higher the index, the higher the priority. */
  const PRIORITY_TABLE := [
    Props(false, false, false), Props(true, false, false), Props(false, true, false), Props(true, true, false)
  ]

  /** The scan of the table: the first entry that only one of the two rules is equal to decides. */
  function ScanTable(l: Rule, r: Rule, i: nat): bool
    requires i <= |PRIORITY_TABLE|
    decreases |PRIORITY_TABLE| - i
  {
    if i == |PRIORITY_TABLE| then l.ip.None? && r.ip.Some?
    else if (l.props == PRIORITY_TABLE[i]) != (r.props == PRIORITY_TABLE[i]) then l.props == PRIORITY_TABLE[i]
    else ScanTable(l, r, i + 1)
  }

  /** Named for what it is used for; it holds when `l` has the lower priority. */
  predicate HasHigherPriority(l: Rule, r: Rule) {
    ScanTable(l, r, 0)
  }

  /** Modifiers first, then hosts file syntax over other rules. */
  function Rank(r: Rule): nat {
    (if r.props.important then 4 else 0) + (if r.props.exception then 2 else 0) + (if r.ip.Some? then 1 else 0)
  }

  lemma PriorityIsRank(l: Rule, r: Rule)
    requires !l.props.badfilter && !r.props.badfilter
    ensures HasHigherPriority(l, r) <==> Rank(l) < Rank(r)
  {
    assert ScanTable(l, r, 4) <==> l.ip.None? && r.ip.Some?;
    assert ScanTable(l, r, 3) <==>
           if (l.props == PRIORITY_TABLE[3]) != (r.props == PRIORITY_TABLE[3]) then l.props == PRIORITY_TABLE[3]
           else ScanTable(l, r, 4);
    assert ScanTable(l, r, 2) <==>
           if (l.props == PRIORITY_TABLE[2]) != (r.props == PRIORITY_TABLE[2]) then l.props == PRIORITY_TABLE[2]
           else ScanTable(l, r, 3);
    assert ScanTable(l, r, 1) <==>
           if (l.props == PRIORITY_TABLE[1]) != (r.props == PRIORITY_TABLE[1]) then l.props == PRIORITY_TABLE[1]
           else ScanTable(l, r, 2);
  }

  /** A rule gives way to another when that is important and it is not; between rules of the same importance, when that is
      an exception and it is not; and between rules that agree in both, when that has hosts file syntax and it has not. */
  lemma PriorityMeaning(l: Rule, r: Rule)
    requires !l.props.badfilter && !r.props.badfilter
    ensures HasHigherPriority(l, r) <==>
            || (r.props.important && !l.props.important)
            || (r.props.important == l.props.important && r.props.exception && !l.props.exception)
            || (r.props.important == l.props.important && r.props.exception == l.props.exception &&
                r.ip.Some? && l.ip.None?)
  {
    PriorityIsRank(l, r);
  }

  // ----- sorting --------------------------------------------------------------------------------

  ghost predicate Descending(rules: seq<Rule>) {
    forall i, j :: 0 <= i < j < |rules| ==> Rank(rules[i]) >= Rank(rules[j])
  }

  predicate NoBadfilter(rules: seq<Rule>) {
    forall i :: 0 <= i < |rules| ==> !rules[i].props.badfilter
  }

  lemma InsertKeepsOrder(sorted: seq<Rule>, i: nat, r: Rule)
    requires Descending(sorted) && i <= |sorted|
    requires forall j :: 0 <= j < i ==> Rank(sorted[j]) >= Rank(r)
    requires i < |sorted| ==> Rank(sorted[i]) < Rank(r)
    ensures Descending(sorted[..i] + [r] + sorted[i..])
  {
    var out := sorted[..i] + [r] + sorted[i..];
    forall a, b | 0 <= a < b < |out|
      ensures Rank(out[a]) >= Rank(out[b])
    {
      if b > i {
        assert out[b] == sorted[b - 1];
        assert Rank(out[b]) <= Rank(sorted[i]) || b - 1 == i;
      }
    }
  }

  /** Insert before the first rule of lower priority. */
  method Insert(sorted: seq<Rule>, r: Rule) returns (out: seq<Rule>)
    requires NoBadfilter(sorted) && !r.props.badfilter && Descending(sorted)
    ensures Descending(out) && NoBadfilter(out)
    ensures multiset(out) == multiset(sorted) + multiset{r}
  {
    var i := 0;
    while i < |sorted| && !HasHigherPriority(sorted[i], r)
      invariant 0 <= i <= |sorted|
      invariant forall j :: 0 <= j < i ==> Rank(sorted[j]) >= Rank(r)
    {
      PriorityIsRank(sorted[i], r);
      i := i + 1;
    }
    if i < |sorted| {
      PriorityIsRank(sorted[i], r);
    }
    InsertKeepsOrder(sorted, i, r);
    InsertKeepsRules(sorted, i, r);
    out := sorted[..i] + [r] + sorted[i..];
  }

  lemma InsertKeepsRules(sorted: seq<Rule>, i: nat, r: Rule)
    requires NoBadfilter(sorted) && !r.props.badfilter && i <= |sorted|
    ensures var out := sorted[..i] + [r] + sorted[i..];
            NoBadfilter(out) && multiset(out) == multiset(sorted) + multiset{r}
  {
    assert sorted == sorted[..i] + sorted[i..];
  }

  method SortByPriority(rules: seq<Rule>) returns (sorted: seq<Rule>)
    requires NoBadfilter(rules)
    ensures Descending(sorted) && NoBadfilter(sorted) && multiset(sorted) == multiset(rules)
  {
    sorted := [];
    for i := 0 to |rules|
      invariant Descending(sorted) && NoBadfilter(sorted) && multiset(sorted) == multiset(rules[..i])
    {
      sorted := Insert(sorted, rules[i]);
      assert rules[..i + 1] == rules[..i] + [rules[i]];
    }
    assert rules[..|rules|] == rules;
  }

  // ----- selecting ------------------------------------------------------------------------------

  function WithoutBadfilterRules(rules: seq<Rule>): (r: seq<Rule>)
    ensures NoBadfilter(r)
  {
    if rules == [] then []
    else WithoutBadfilterRules(rules[..|rules| - 1])
         + (if rules[|rules| - 1].props.badfilter then [] else [rules[|rules| - 1]])
  }

  /** The texts the badfilter rules cancel. */
  function CancelledTexts(rules: seq<Rule>): seq<string> {
    if rules == [] then []
    else CancelledTexts(rules[..|rules| - 1])
         + (if rules[|rules| - 1].props.badfilter then [TextWithoutBadfilter(rules[|rules| - 1].text)] else [])
  }

  /** The first rule from `i` on that is not cancelled. */
  function FirstLive(sorted: seq<Rule>, cancelled: seq<string>, i: nat): (k: nat)
    requires i <= |sorted|
    ensures i <= k <= |sorted|
    ensures forall j :: i <= j < k ==> sorted[j].text in cancelled
    ensures k < |sorted| ==> sorted[k].text !in cancelled
    decreases |sorted| - i
  {
    if i == |sorted| || sorted[i].text !in cancelled then i else FirstLive(sorted, cancelled, i + 1)
  }

  /** Where the run of hosts rules that starts at `i` ends. */
  function HostsEnd(sorted: seq<Rule>, i: nat): (k: nat)
    requires i <= |sorted|
    ensures i <= k <= |sorted|
    ensures forall j :: i <= j < k ==> sorted[j].ip.Some?
    ensures k < |sorted| ==> sorted[k].ip.None?
    decreases |sorted| - i
  {
    if i == |sorted| || sorted[i].ip.None? then i else HostsEnd(sorted, i + 1)
  }

  /** What is taken from the sorted rules. */
  function Select(sorted: seq<Rule>, cancelled: seq<string>): seq<Rule> {
    var i := FirstLive(sorted, cancelled, 0);
    if i == |sorted| then []
    else if sorted[i].ip.None? then [sorted[i]]
    else sorted[i..HostsEnd(sorted, i)]
  }

  /** The outcomes of the selection: sorting leaves the order of rules of equal priority open. */
  ghost predicate IsEffective(rules: seq<Rule>, result: seq<Rule>) {
    exists sorted :: IsSortOf(sorted, rules) && result == Select(sorted, CancelledTexts(rules))
  }

  ghost predicate IsSortOf(sorted: seq<Rule>, rules: seq<Rule>) {
    Descending(sorted) && multiset(sorted) == multiset(WithoutBadfilterRules(rules))
  }

  method GetEffectiveRules(rules: seq<Rule>) returns (result: seq<Rule>)
    ensures IsEffective(rules, result)
  {
    var effective: seq<Rule>, cancelled: seq<string> := [], [];
    for n := 0 to |rules|
      invariant effective == WithoutBadfilterRules(rules[..n])
      invariant cancelled == CancelledTexts(rules[..n])
    {
      assert rules[..n + 1][..n] == rules[..n];
      if !rules[n].props.badfilter {
        effective := effective + [rules[n]];
      } else {
        cancelled := cancelled + [TextWithoutBadfilter(rules[n].text)];
      }
    }
    assert rules[..|rules|] == rules;
    var sorted := SortByPriority(effective);
    assert IsSortOf(sorted, rules);
    var i := 0;
    while i < |sorted| && sorted[i].text in cancelled
      invariant 0 <= i <= |sorted|
      invariant FirstLive(sorted, cancelled, 0) == FirstLive(sorted, cancelled, i)
    {
      i := i + 1;
    }
    if i == |sorted| {
      return [];
    }
    if sorted[i].ip.None? {
      return [sorted[i]];
    }
    var seek := i;
    while seek < |sorted| && sorted[seek].ip.Some?
      invariant i <= seek <= |sorted|
      invariant HostsEnd(sorted, i) == HostsEnd(sorted, seek)
    {
      seek := seek + 1;
    }
    result := sorted[i..seek];
  }

  // ----- what is selected -----------------------------------------------------------------------

  predicate IsLive(rules: seq<Rule>, r: Rule) {
    r in rules && !r.props.badfilter && r.text !in CancelledTexts(rules)
  }

  /** Hosts rules carry no modifiers and are not cancelled. All rules that were parsed are so; see
      ParsedHostsArePlain. */
  ghost predicate HostsArePlain(rules: seq<Rule>) {
    forall r :: r in rules && r.ip.Some? ==> r.props == NO_PROPS && r.text !in CancelledTexts(rules)
  }

  function HostsRules(rules: seq<Rule>): seq<Rule> {
    HostsAmong(rules, |rules|)
  }

  /** The hosts rules among the first `n` rules. */
  function HostsAmong(rules: seq<Rule>, n: nat): seq<Rule>
    requires n <= |rules|
  {
    if n == 0 then []
    else if rules[n - 1].ip.Some? then HostsAmong(rules, n - 1) + [rules[n - 1]]
    else HostsAmong(rules, n - 1)
  }

  lemma {:induction false} InWithoutBadfilter(rules: seq<Rule>, r: Rule)
    ensures r in WithoutBadfilterRules(rules) <==> r in rules && !r.props.badfilter
  {
    if rules != [] {
      InWithoutBadfilter(rules[..|rules| - 1], r);
      assert rules == rules[..|rules| - 1] + [rules[|rules| - 1]];
    }
  }

  /** A text is cancelled when some badfilter rule is written for it. */
  lemma {:induction false} InCancelledTexts(rules: seq<Rule>, t: string)
    ensures t in CancelledTexts(rules) <==>
            exists i :: 0 <= i < |rules| && rules[i].props.badfilter && t == TextWithoutBadfilter(rules[i].text)
  {
    if rules != [] {
      var n := |rules| - 1;
      InCancelledTexts(rules[..n], t);
      assert forall i :: 0 <= i < n ==> rules[..n][i] == rules[i];
    }
  }

  lemma SortedMember(rules: seq<Rule>, sorted: seq<Rule>, r: Rule)
    requires IsSortOf(sorted, rules)
    ensures r in sorted <==> r in rules && !r.props.badfilter
  {
    InWithoutBadfilter(rules, r);
    assert r in sorted <==> r in multiset(sorted);
    assert r in WithoutBadfilterRules(rules) <==> r in multiset(WithoutBadfilterRules(rules));
  }

  lemma LiveIsBelowFirst(rules: seq<Rule>, sorted: seq<Rule>, r: Rule)
    requires IsSortOf(sorted, rules) && IsLive(rules, r)
    ensures var i := FirstLive(sorted, CancelledTexts(rules), 0); i < |sorted| && Rank(r) <= Rank(sorted[i])
  {
    SortedMember(rules, sorted, r);
    var j :| 0 <= j < |sorted| && sorted[j] == r;
    LiveIsNotBefore(sorted, CancelledTexts(rules), j);
  }

  lemma LiveIsNotBefore(sorted: seq<Rule>, cancelled: seq<string>, j: nat)
    requires Descending(sorted) && j < |sorted| && sorted[j].text !in cancelled
    ensures var i := FirstLive(sorted, cancelled, 0); i < |sorted| && Rank(sorted[j]) <= Rank(sorted[i])
  {
    assert j >= FirstLive(sorted, cancelled, 0);
  }

  lemma FirstIsLive(rules: seq<Rule>, sorted: seq<Rule>)
    requires IsSortOf(sorted, rules)
    ensures var i := FirstLive(sorted, CancelledTexts(rules), 0); i < |sorted| ==> IsLive(rules, sorted[i])
  {
    var i := FirstLive(sorted, CancelledTexts(rules), 0);
    if i < |sorted| {
      SortedMember(rules, sorted, sorted[i]);
    }
  }

  lemma SelectedFirst(rules: seq<Rule>, sorted: seq<Rule>)
    requires IsSortOf(sorted, rules)
    ensures var result := Select(sorted, CancelledTexts(rules));
            && (result == [] <==> forall r :: !IsLive(rules, r))
            && (result != [] ==> IsLive(rules, result[0]) && forall r :: IsLive(rules, r) ==> Rank(r) <= Rank(result[0]))
  {
    FirstIsLive(rules, sorted);
    forall r | IsLive(rules, r)
      ensures var i := FirstLive(sorted, CancelledTexts(rules), 0); i < |sorted| && Rank(r) <= Rank(sorted[i])
    {
      LiveIsBelowFirst(rules, sorted, r);
    }
  }

  /** Of the sorted rules, the hosts rules stand together at the end of the modified ones. */
  lemma HostsStandTogether(rules: seq<Rule>, sorted: seq<Rule>, i: nat)
    requires IsSortOf(sorted, rules) && HostsArePlain(rules)
    requires i == FirstLive(sorted, CancelledTexts(rules), 0) && i < |sorted| && sorted[i].ip.Some?
    ensures var k := HostsEnd(sorted, i);
            forall j :: 0 <= j < |sorted| ==> (sorted[j].ip.Some? <==> i <= j < k)
  {
    var k := HostsEnd(sorted, i);
    SortedMember(rules, sorted, sorted[i]);
    forall j | 0 <= j < |sorted|
      ensures sorted[j].ip.Some? <==> i <= j < k
    {
      SortedMember(rules, sorted, sorted[j]);
      if j > k {
        HostsNotSplit(sorted, i, k, j);
      }
    }
  }

  /** Below a hosts rule without modifiers, no rule stands between it and another hosts rule. */
  lemma HostsNotSplit(sorted: seq<Rule>, i: nat, k: nat, j: nat)
    requires Descending(sorted) && i < k < j < |sorted|
    requires sorted[i].ip.Some? && sorted[i].props == NO_PROPS && sorted[k].ip.None?
    ensures sorted[j].ip.None?
  {
    assert Rank(sorted[i]) >= Rank(sorted[k]) && Rank(sorted[k]) >= Rank(sorted[j]);
  }

  lemma {:induction false} HostsRulesOfSlice(sorted: seq<Rule>, i: nat, k: nat, n: nat)
    requires i <= k <= |sorted| && n <= |sorted|
    requires forall j :: 0 <= j < |sorted| ==> (sorted[j].ip.Some? <==> i <= j < k)
    ensures HostsAmong(sorted, n) == if n <= i then [] else if n <= k then sorted[i..n] else sorted[i..k]
  {
    if n > 0 {
      HostsRulesOfSlice(sorted, i, k, n - 1);
      if i < n <= k {
        SliceGrows(sorted, i, n - 1);
      }
    }
  }

  lemma SliceGrows(sorted: seq<Rule>, i: nat, n: nat)
    requires i <= n < |sorted|
    ensures sorted[i..n + 1] == sorted[i..n] + [sorted[n]]
  {
  }

  lemma {:induction false} HostsCount(rules: seq<Rule>, n: nat, r: Rule)
    requires n <= |rules|
    ensures multiset(HostsAmong(rules, n))[r] == if r.ip.Some? then multiset(rules[..n])[r] else 0
  {
    if n > 0 {
      HostsCount(rules, n - 1, r);
      SliceGrows(rules, 0, n - 1);
      CountStep(rules[..n - 1], HostsAmong(rules, n - 1), rules[n - 1], r);
    }
  }

  lemma CountStep(all: seq<Rule>, hosts: seq<Rule>, next: Rule, r: Rule)
    requires multiset(hosts)[r] == if r.ip.Some? then multiset(all)[r] else 0
    ensures multiset(if next.ip.Some? then hosts + [next] else hosts)[r] ==
            if r.ip.Some? then multiset(all + [next])[r] else 0
  {
  }

  lemma HostsRulesCount(rules: seq<Rule>, r: Rule)
    ensures multiset(HostsRules(rules))[r] == if r.ip.Some? then multiset(rules)[r] else 0
  {
    HostsCount(rules, |rules|, r);
    assert rules[..|rules|] == rules;
  }

  lemma {:induction false} WithoutBadfilterCount(rules: seq<Rule>, r: Rule)
    ensures multiset(WithoutBadfilterRules(rules))[r] == if r.props.badfilter then 0 else multiset(rules)[r]
  {
    if rules != [] {
      var n := |rules| - 1;
      WithoutBadfilterCount(rules[..n], r);
      assert rules == rules[..n] + [rules[n]];
    }
  }

  lemma HostsAreSorted(rules: seq<Rule>, sorted: seq<Rule>, r: Rule)
    requires IsSortOf(sorted, rules) && HostsArePlain(rules)
    ensures multiset(HostsRules(sorted))[r] == multiset(HostsRules(rules))[r]
  {
    HostsRulesCount(sorted, r);
    HostsRulesCount(rules, r);
    WithoutBadfilterCount(rules, r);
    assert r in multiset(rules) ==> r in rules;
  }

  /** When hosts rules are selected, they are the hosts rules of the sorted list. */
  lemma SelectsHosts(rules: seq<Rule>, sorted: seq<Rule>)
    requires IsSortOf(sorted, rules) && HostsArePlain(rules)
    requires var result := Select(sorted, CancelledTexts(rules)); result != [] && result[0].ip.Some?
    ensures Select(sorted, CancelledTexts(rules)) == HostsRules(sorted)
  {
    var i := SelectedHosts(sorted, CancelledTexts(rules));
    HostsStandTogether(rules, sorted, i);
    HostsOfSlice(sorted, i, HostsEnd(sorted, i));
  }

  lemma SelectedHosts(sorted: seq<Rule>, cancelled: seq<string>) returns (i: nat)
    requires var result := Select(sorted, cancelled); result != [] && result[0].ip.Some?
    ensures i == FirstLive(sorted, cancelled, 0) < |sorted| && sorted[i].ip.Some?
    ensures Select(sorted, cancelled) == sorted[i..HostsEnd(sorted, i)]
  {
    i := FirstLive(sorted, cancelled, 0);
  }

  lemma HostsOfSlice(sorted: seq<Rule>, i: nat, k: nat)
    requires i <= k <= |sorted| && forall j :: 0 <= j < |sorted| ==> (sorted[j].ip.Some? <==> i <= j < k)
    ensures HostsRules(sorted) == sorted[i..k]
  {
    HostsRulesOfSlice(sorted, i, k, |sorted|);
  }

  lemma InHostsRules(rules: seq<Rule>, r: Rule)
    ensures r in HostsRules(rules) <==> r in rules && r.ip.Some?
  {
    HostsRulesCount(rules, r);
    assert r in rules <==> r in multiset(rules);
    assert r in HostsRules(rules) <==> r in multiset(HostsRules(rules));
  }

  /** All the hosts rules are selected, each as often as it was matched. */
  lemma AllHostsSelected(rules: seq<Rule>, sorted: seq<Rule>)
    requires IsSortOf(sorted, rules) && HostsArePlain(rules)
    ensures multiset(HostsRules(sorted)) == multiset(HostsRules(rules))
    ensures forall r :: r in HostsRules(sorted) ==> IsLive(rules, r) && Rank(r) == 1
  {
    forall r: Rule
      ensures multiset(HostsRules(sorted))[r] == multiset(HostsRules(rules))[r]
      ensures r in HostsRules(sorted) ==> IsLive(rules, r) && Rank(r) == 1
    {
      SortedMember(rules, sorted, r);
      HostsAreSorted(rules, sorted, r);
      InHostsRules(sorted, r);
    }
  }

  /** Whatever the order of the matched rules: nothing is selected exactly when every rule is cancelled;
      otherwise the selected rules are live and of the highest rank among the live ones, and they are
      one rule, or all the hosts rules. */
  lemma EffectiveMeaning(rules: seq<Rule>, result: seq<Rule>)
    requires HostsArePlain(rules) && IsEffective(rules, result)
    ensures result == [] <==> forall r :: !IsLive(rules, r)
    ensures forall r :: r in result ==> IsLive(rules, r)
    ensures forall r, s :: r in result && IsLive(rules, s) ==> Rank(s) <= Rank(r)
    ensures result != [] && result[0].ip.None? ==> |result| == 1
    ensures result != [] && result[0].ip.Some? ==> multiset(result) == multiset(HostsRules(rules))
  {
    var sorted :| IsSortOf(sorted, rules) && result == Select(sorted, CancelledTexts(rules));
    SelectedFirst(rules, sorted);
    if result != [] && result[0].ip.Some? {
      HostsSelected(rules, sorted, result);
    }
  }

  lemma HostsSelected(rules: seq<Rule>, sorted: seq<Rule>, result: seq<Rule>)
    requires HostsArePlain(rules) && IsSortOf(sorted, rules)
    requires result == Select(sorted, CancelledTexts(rules)) && result != [] && result[0].ip.Some?
    ensures multiset(result) == multiset(HostsRules(rules))
    ensures forall r :: r in result ==> IsLive(rules, r) && Rank(r) == 1
  {
    SelectsHosts(rules, sorted);
    AllHostsSelected(rules, sorted);
  }

  // ----- which modifiers decide -------------------------------------------------------------------

  /** A live rule of this importance that is an exception, or none. */
  ghost predicate HasLive(rules: seq<Rule>, important: bool, exception: bool) {
    exists r :: IsLive(rules, r) && r.props.important == important && r.props.exception == exception
  }

  ghost predicate AnyLive(rules: seq<Rule>) {
    exists r :: IsLive(rules, r)
  }

  /** A live rule is in the list, is no badfilter rule itself, and no badfilter rule of the list is written for its text. */
  lemma LiveMeaning(rules: seq<Rule>, r: Rule)
    ensures IsLive(rules, r) <==>
            r in rules && !r.props.badfilter &&
            forall i :: 0 <= i < |rules| && rules[i].props.badfilter ==> TextWithoutBadfilter(rules[i].text) != r.text
  {
    InCancelledTexts(rules, r.text);
  }

  /** Whatever is selected has the importance of the most important live rules and, among the live rules of that importance,
      is an exception if one of them is. */
  lemma SelectedProperties(rules: seq<Rule>, result: seq<Rule>, r: Rule)
    requires HostsArePlain(rules) && IsEffective(rules, result) && r in result
    ensures r.props.important <==> HasLive(rules, true, true) || HasLive(rules, true, false)
    ensures r.props.exception <==> HasLive(rules, r.props.important, true)
  {
    EffectiveMeaning(rules, result);
    ExceptionsFirst(rules, r);
  }

  /** A live rule that no live rule outranks. */
  lemma ExceptionsFirst(rules: seq<Rule>, r: Rule)
    requires IsLive(rules, r) && forall s :: IsLive(rules, s) ==> Rank(s) <= Rank(r)
    ensures r.props.important <==> HasLive(rules, true, true) || HasLive(rules, true, false)
    ensures r.props.exception <==> HasLive(rules, r.props.important, true)
  {
    assert HasLive(rules, r.props.important, r.props.exception);
    if HasLive(rules, true, true) {
      var s :| IsLive(rules, s) && s.props.important && s.props.exception;
      assert Rank(s) <= Rank(r);
    }
    if HasLive(rules, true, false) {
      var s :| IsLive(rules, s) && s.props.important && !s.props.exception;
      assert Rank(s) <= Rank(r);
    }
    if HasLive(rules, false, true) {
      var s :| IsLive(rules, s) && !s.props.important && s.props.exception;
      assert Rank(s) <= Rank(r);
    }
  }

  /** Hosts rules are selected exactly when one is live and no live rule has a modifier. */
  lemma HostsAreSelected(rules: seq<Rule>, result: seq<Rule>)
    requires HostsArePlain(rules) && IsEffective(rules, result)
    ensures (exists r :: r in result && r.ip.Some?) <==>
            (exists r :: IsLive(rules, r) && r.ip.Some?) && (forall r :: IsLive(rules, r) ==> r.props == NO_PROPS)
  {
    EffectiveMeaning(rules, result);
    if r :| r in result && r.ip.Some? {
      assert IsLive(rules, r);
      forall s | IsLive(rules, s)
        ensures s.props == NO_PROPS
      {
        assert Rank(s) <= Rank(r);
      }
    }
    if h :| IsLive(rules, h) && h.ip.Some? {
      assert result != [];
      assert result[0] in result;
      assert Rank(h) <= Rank(result[0]);
    }
  }

  /** Whether the query is blocked, by the live rules: one that is important blocks unless another one is an important
      exception; if none is important, one that is no exception blocks unless another one is an exception. */
  ghost predicate ShouldBlock(rules: seq<Rule>) {
    || (HasLive(rules, true, false) && !HasLive(rules, true, true))
    || (!HasLive(rules, true, false) && !HasLive(rules, true, true) && !HasLive(rules, false, true) && AnyLive(rules))
  }

  lemma BlocksAsItShould(rules: seq<Rule>, result: seq<Rule>)
    requires IsEffective(rules, result)
    ensures Blocks(result) <==> ShouldBlock(rules)
  {
    var sorted :| IsSortOf(sorted, rules) && result == Select(sorted, CancelledTexts(rules));
    SelectedFirst(rules, sorted);
    if result != [] {
      var r := result[0];
      ExceptionsFirst(rules, r);
      assert HasLive(rules, r.props.important, r.props.exception);
    }
  }

  // ----- what a badfilter rule cancels ------------------------------------------------------------

  ghost predicate Lacks(s: string, word: string) {
    forall i :: !OccursAt(s, word, i)
  }

  lemma AllBadfilter()
    ensures |BADFILTER| == 9 && '$' !in BADFILTER && ',' !in BADFILTER
  {
    assert BADFILTER == "badfilter";
  }

  /** The modifier is found where it stands, when none stands before it. */
  lemma BadfilterAt(x: string, before: string, after: string)
    requires '$' !in before && '$' !in after
    requires forall i :: 0 <= i < |before| ==> !OccursAt(before + BADFILTER + after, BADFILTER, i)
    ensures TextWithoutBadfilter(x + "$" + (before + BADFILTER + after)) == JoinAround(x + "$" + before, after)
  {
    var mods, n := before + BADFILTER + after, |before|;
    AllBadfilter();
    LastDollar(x, mods);
    assert mods[n..n + |BADFILTER|] == BADFILTER;
    assert OccursAt(mods, BADFILTER, n);
    assert Find(mods, BADFILTER, 0) == Some(n);
    assert mods[..n] == before && mods[n + |BADFILTER|..] == after;
  }

  lemma NotAcrossComma(m: string, after: string, i: nat)
    requires Lacks(m, BADFILTER) && i <= |m|
    ensures !OccursAt((m + ",") + BADFILTER + after, BADFILTER, i)
  {
    var s := (m + ",") + BADFILTER + after;
    AllBadfilter();
    if i + 9 <= |m| {
      assert s[i..i + 9] == m[i..i + 9];
      assert !OccursAt(m, BADFILTER, i);
    } else {
      assert s[|m|] == ',' && s[i..i + 9][|m| - i] == ',';
      assert BADFILTER[|m| - i] in BADFILTER;
    }
  }

  lemma JoinAfterComma(p: string, after: string)
    ensures JoinAround(p + ",", after) == p + after
  {
    assert (p + ",")[..|p|] == p;
  }

  /** A badfilter rule cancels the rule it is written for: its own text without the modifier, whether the modifier stands
      behind others, before others, or alone. */
  lemma BadfilterCancels(x: string, m: string, after: string)
    requires '$' !in m && '$' !in after && Lacks(m, BADFILTER)
    ensures TextWithoutBadfilter(x + "$" + ((m + ",") + BADFILTER + after)) == (x + "$" + m) + after
    ensures TextWithoutBadfilter(x + "$" + ("" + BADFILTER + ("," + m))) == (x + "$") + m
    ensures TextWithoutBadfilter(x + "$" + ("" + BADFILTER + "")) == x
  {
    forall i | 0 <= i < |m + ","|
      ensures !OccursAt((m + ",") + BADFILTER + after, BADFILTER, i)
    {
      NotAcrossComma(m, after, i);
    }
    BadfilterAt(x, m + ",", after);
    assert x + "$" + (m + ",") == (x + "$" + m) + ",";
    JoinAfterComma(x + "$" + m, after);
    BadfilterFirst(x, m);
    BadfilterAlone(x);
  }

  lemma BadfilterFirst(x: string, m: string)
    requires '$' !in m
    ensures TextWithoutBadfilter(x + "$" + ("" + BADFILTER + ("," + m))) == (x + "$") + m
  {
    BadfilterAt(x, "", "," + m);
    assert x + "$" + "" == x + "$";
    assert ("," + m)[1..] == m;
  }

  lemma BadfilterAlone(x: string)
    ensures TextWithoutBadfilter(x + "$" + ("" + BADFILTER + "")) == x
  {
    BadfilterAt(x, "", "");
    assert x + "$" + "" == x + "$";
    assert (x + "$")[..|x|] + "" == x;
  }

  // ----- along a response -------------------------------------------------------------------------

  /** The highest rank of some rules, or -1 when there are none. */
  function MaxRank(rules: seq<Rule>): (r: int)
    ensures r >= -1
  {
    if rules == [] then -1
    else
      var rest := MaxRank(rules[..|rules| - 1]);
      if rest < Rank(rules[|rules| - 1]) then Rank(rules[|rules| - 1]) else rest
  }

  lemma {:induction false} MaxRankAt(rules: seq<Rule>, i: nat)
    requires i < |rules|
    ensures Rank(rules[i]) <= MaxRank(rules)
  {
    if i < |rules| - 1 {
      MaxRankAt(rules[..|rules| - 1], i);
    }
  }

  lemma {:induction false} MaxRankIsOne(rules: seq<Rule>) returns (i: nat)
    requires rules != []
    ensures i < |rules| && Rank(rules[i]) == MaxRank(rules)
  {
    i := |rules| - 1;
    if MaxRank(rules[..i]) >= Rank(rules[i]) {
      i := MaxRankIsOne(rules[..i]);
    }
  }

  /** The rules a chain of names and addresses is judged by so far: those that were effective last. */
  class Forwarder {
    var lastEffectiveRules: seq<Rule>

    constructor ()
      ensures lastEffectiveRules == []
    {
      lastEffectiveRules := [];
    }

    /** One name of a response. The query is blocked unless no rule or an exception is effective. */
    method ApplyFilter(matched: seq<Rule>) returns (blocked: bool)
      modifies this
      ensures IsEffective(matched + old(lastEffectiveRules), lastEffectiveRules)
      ensures blocked == Blocks(lastEffectiveRules)
      ensures blocked <==> ShouldBlock(matched + old(lastEffectiveRules))
    {
      ghost var rules := matched + lastEffectiveRules;
      lastEffectiveRules := GetEffectiveRules(matched + lastEffectiveRules);
      BlocksAsItShould(rules, lastEffectiveRules);
      blocked := lastEffectiveRules != [] && !lastEffectiveRules[0].props.exception;
    }
  }

  predicate Blocks(effective: seq<Rule>) {
    effective != [] && !effective[0].props.exception
  }

  /** `effective[i]` is what is effective after the rules matched for the first `i` names. */
  ghost predicate IsChain(matched: seq<seq<Rule>>, effective: seq<seq<Rule>>) {
    && |effective| == |matched| + 1
    && effective[0] == []
    && forall i :: 0 <= i < |matched| ==> IsEffective(matched[i] + effective[i], effective[i + 1])
  }

  ghost predicate PlainRules(rules: seq<Rule>) {
    NoBadfilter(rules) && forall i :: 0 <= i < |rules| && rules[i].ip.Some? ==> rules[i].props == NO_PROPS
  }

  function AllMatched(matched: seq<seq<Rule>>): seq<Rule> {
    if matched == [] then [] else AllMatched(matched[..|matched| - 1]) + matched[|matched| - 1]
  }

  lemma AllMatchedStep(matched: seq<seq<Rule>>, n: nat)
    requires 0 < n <= |matched|
    ensures AllMatched(matched[..n]) == AllMatched(matched[..n - 1]) + matched[n - 1]
  {
    assert matched[..n][..n - 1] == matched[..n - 1];
  }

  lemma {:induction false} NothingCancelled(rules: seq<Rule>)
    requires NoBadfilter(rules)
    ensures CancelledTexts(rules) == []
  {
    if rules != [] {
      NothingCancelled(rules[..|rules| - 1]);
    }
  }

  lemma HighestLive(rules: seq<Rule>, r: Rule)
    requires r in rules && forall i :: 0 <= i < |rules| ==> Rank(rules[i]) <= Rank(r)
    ensures Rank(r) == MaxRank(rules)
  {
    var i :| 0 <= i < |rules| && rules[i] == r;
    MaxRankAt(rules, i);
    var k := MaxRankIsOne(rules);
  }

  lemma SameRanks(rules: seq<Rule>, m: int)
    requires rules != [] && forall i :: 0 <= i < |rules| ==> Rank(rules[i]) == m
    ensures MaxRank(rules) == m
  {
    var k := MaxRankIsOne(rules);
  }

  /** Without badfilter rules, the effective rules are rules of the highest rank. */
  lemma EffectiveIsHighest(rules: seq<Rule>, result: seq<Rule>)
    requires PlainRules(rules) && IsEffective(rules, result)
    ensures PlainRules(result) && MaxRank(result) == MaxRank(rules)
    ensures forall i :: 0 <= i < |result| ==> Rank(result[i]) == MaxRank(rules)
  {
    NothingCancelled(rules);
    EffectiveMeaning(rules, result);
    assert forall i :: 0 <= i < |rules| ==> IsLive(rules, rules[i]);
    assert |rules| > 0 ==> IsLive(rules, rules[0]);
    forall i | 0 <= i < |result|
      ensures IsLive(rules, result[i]) && Rank(result[i]) == MaxRank(rules)
    {
      assert result[i] in result;
      HighestLive(rules, result[i]);
    }
    if result != [] {
      SameRanks(result, MaxRank(rules));
    }
  }

  lemma {:induction false} MaxRankConcat(a: seq<Rule>, b: seq<Rule>)
    ensures MaxRank(a + b) == if MaxRank(a) < MaxRank(b) then MaxRank(b) else MaxRank(a)
  {
    if b == [] {
      assert a + b == a;
    } else {
      MaxRankConcat(a, b[..|b| - 1]);
      assert (a + b)[..|a + b| - 1] == a + b[..|b| - 1];
    }
  }

  /** Along any chain of names, the effective rules are those of the highest rank matched so far. */
  lemma {:induction false} ChainKeepsHighest(matched: seq<seq<Rule>>, effective: seq<seq<Rule>>, n: nat)
    requires IsChain(matched, effective) && n <= |matched|
    requires forall i :: 0 <= i < |matched| ==> PlainRules(matched[i])
    ensures PlainRules(effective[n])
    ensures forall i :: 0 <= i < |effective[n]| ==> Rank(effective[n][i]) == MaxRank(AllMatched(matched[..n]))
    ensures MaxRank(effective[n]) == MaxRank(AllMatched(matched[..n]))
  {
    if n > 0 {
      ChainKeepsHighest(matched, effective, n - 1);
      AllMatchedStep(matched, n);
      var rules := matched[n - 1] + effective[n - 1];
      EffectiveIsHighest(rules, effective[n]);
      MaxRankConcat(matched[n - 1], effective[n - 1]);
      MaxRankConcat(AllMatched(matched[..n - 1]), matched[n - 1]);
    }
  }

  /** An exception that is effective for one name of a chain gives way at a later one only to a rule of
      strictly higher rank. */
  lemma ExceptionYieldsToHigherRank(matched: seq<seq<Rule>>, effective: seq<seq<Rule>>, a: nat, b: nat)
    requires IsChain(matched, effective) && a <= b <= |matched|
    requires forall i :: 0 <= i < |matched| ==> PlainRules(matched[i])
    requires effective[a] != [] && effective[a][0].props.exception
    ensures effective[b] != []
    ensures Blocks(effective[b]) ==> Rank(effective[a][0]) < Rank(effective[b][0])
  {
    ChainKeepsHighest(matched, effective, a);
    ChainKeepsHighest(matched, effective, b);
    MaxRankGrows(matched, a, b);
    if Blocks(effective[b]) && Rank(effective[a][0]) == Rank(effective[b][0]) {
      assert !effective[a][0].props.badfilter && !effective[b][0].props.badfilter;
    }
  }

  lemma {:induction false} MaxRankGrows(matched: seq<seq<Rule>>, a: nat, b: nat)
    requires a <= b <= |matched|
    ensures MaxRank(AllMatched(matched[..a])) <= MaxRank(AllMatched(matched[..b]))
    decreases b - a
  {
    if a < b {
      MaxRankGrows(matched, a, b - 1);
      AllMatchedStep(matched, b);
      MaxRankConcat(AllMatched(matched[..b - 1]), matched[b - 1]);
    }
  }
}
