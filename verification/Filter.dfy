/** The filter object of dnsfilter/src/filter.cpp: loading a rule list into the tables, and searching
    them for the rules of a host. Allocation failures and the memory limit are left out. */
module Filter {
  import opened Text
  import opened Lines
  import opened RuleSyntax
  import opened Shortcuts
  import opened FilterSpec
  import opened FilterIndex

  function Texts(rules: seq<Rule>): set<string> {
    set r | r in rules :: r.text
  }

  /** The context of one match: the host in lower case, its subdomains, and the rules matched so far,
      by this filter or by the ones before it. */
  class MatchContext {
    const host: string
    const subdomains: seq<string>
    var matchedRules: seq<Rule>

    constructor (host: string, subdomains: seq<string>)
      ensures this.host == host && this.subdomains == subdomains && matchedRules == []
    {
      this.host := host;
      this.subdomains := subdomains;
      matchedRules := [];
    }

    ghost predicate Valid(m: Matcher)
      reads this
    {
      && subdomains == SubdomainsOf(host)
      && forall i :: 0 <= i < |matchedRules| ==> OwnText(m, matchedRules[i].text)
    }
  }

  /** The subdomains of `s`, collected behind those that are done. */
  function SubdomainsFrom(s: string, done: seq<string>): seq<string>
    decreases |s|
  {
    if Dots(s) < 2 then done + [s]
    else
      DotsAfterSplit(s);
      SubdomainsFrom(Split2(s, '.').1, done + [s])
  }

  lemma {:induction false} SubdomainsBehind(s: string, done: seq<string>)
    ensures SubdomainsFrom(s, done) == done + SubdomainsOf(s)
    decreases |s|
  {
    if Dots(s) >= 2 {
      DotsAfterSplit(s);
      SubdomainsBehind(Split2(s, '.').1, done + [s]);
      Regroup(done, [s], SubdomainsOf(Split2(s, '.').1));
    }
  }

  method CreateMatchContext(name: string) returns (ctx: MatchContext)
    ensures fresh(ctx) && ctx.matchedRules == []
    ensures ctx.host == ToLower(name) && ctx.subdomains == SubdomainsOf(ctx.host)
  {
    var host := ToLower(name);
    var n := Dots(host);
    if n > 0 {
      n := n - 1;
    }
    var subdomains := [host];
    ghost var done: seq<string> := [];
    var i := 0;
    while i < n
      invariant 0 <= i <= n && |subdomains| == i + 1 && subdomains == done + [subdomains[i]]
      invariant Dots(subdomains[i]) == Dots(host) - i
      invariant SubdomainsFrom(subdomains[i], done) == SubdomainsFrom(host, [])
    {
      DotsAfterSplit(subdomains[i]);
      var parts := Split2(subdomains[i], '.');
      done := subdomains;
      subdomains := subdomains + [parts.1];
      i := i + 1;
    }
    SubdomainsBehind(host, []);
    ctx := new MatchContext(host, subdomains);
  }

  // ----- adding to the tables -------------------------------------------------------------------

  lemma DomainPositionsStep(places: seq<Place>, place: Place, h: nat)
    ensures DomainPositions(places + [place], h) == DomainPositions(places, h) + Repeated(place.pos, place.domains, h)
    ensures ShortcutPositions(places + [place], h)
            == ShortcutPositions(places, h) + (if place.shortcut == Some(h) then [place.pos] else [])
  {
    assert (places + [place])[..|places|] == places;
  }

  lemma LeftoversStep(places: seq<Place>, place: Place)
    ensures Leftovers(places + [place])
            == Leftovers(places) + (if place.leftover.Some? then [place.leftover.value] else [])
  {
    assert (places + [place])[..|places|] == places;
  }

  /** A place that puts nothing into a table leaves the table as it is. */
  lemma NothingPut(unique: map<nat, nat>, multi: map<nat, seq<nat>>, shortcuts: map<nat, seq<nat>>,
                   places: seq<Place>, place: Place)
    ensures (DomainsIndex(unique, multi, places) && place.domains == []) ==>
              DomainsIndex(unique, multi, places + [place])
    ensures (ShortcutsIndex(shortcuts, places) && place.shortcut.None?) ==>
              ShortcutsIndex(shortcuts, places + [place])
  {
    forall h: nat {
      DomainPositionsStep(places, place, h);
    }
  }

  /** The first `i` hashes of a place have been put into the domain tables. */
  ghost predicate PutSome(unique: map<nat, nat>, multi: map<nat, seq<nat>>, places: seq<Place>, place: Place, i: nat)
    requires i <= |place.domains|
  {
    && unique.Keys !! multi.Keys
    && forall h: nat :: Lookup(unique, multi, h)
         == DomainPositions(places, h) + Repeated(place.pos, place.domains[..i], h)
  }

  lemma PutNone(unique: map<nat, nat>, multi: map<nat, seq<nat>>, places: seq<Place>, place: Place)
    requires DomainsIndex(unique, multi, places)
    ensures PutSome(unique, multi, places, place, 0)
  {
  }

  lemma RepeatedStep(pos: nat, hashes: seq<nat>, i: nat, h: nat)
    requires i < |hashes|
    ensures Repeated(pos, hashes[..i + 1], h)
            == Repeated(pos, hashes[..i], h) + (if h == hashes[i] then [pos] else [])
  {
    assert hashes[..i + 1][..i] == hashes[..i];
  }

  lemma PutOneMore(unique: map<nat, nat>, multi: map<nat, seq<nat>>, unique': map<nat, nat>, multi': map<nat, seq<nat>>,
                   places: seq<Place>, place: Place, i: nat)
    requires i < |place.domains| && PutSome(unique, multi, places, place, i)
    requires unique'.Keys !! multi'.Keys
    requires forall h: nat :: Lookup(unique', multi', h)
               == Lookup(unique, multi, h) + (if h == place.domains[i] then [place.pos] else [])
    ensures PutSome(unique', multi', places, place, i + 1)
  {
    forall h: nat
      ensures Lookup(unique', multi', h)
              == DomainPositions(places, h) + Repeated(place.pos, place.domains[..i + 1], h)
    {
      RepeatedStep(place.pos, place.domains, i, h);
      Regroup(DomainPositions(places, h), Repeated(place.pos, place.domains[..i], h),
              if h == place.domains[i] then [place.pos] else []);
    }
  }

  lemma PutAll(unique: map<nat, nat>, multi: map<nat, seq<nat>>, places: seq<Place>, place: Place)
    requires PutSome(unique, multi, places, place, |place.domains|)
    ensures DomainsIndex(unique, multi, places + [place])
  {
    assert place.domains[..|place.domains|] == place.domains;
    forall h: nat {
      DomainPositionsStep(places, place, h);
    }
  }

  lemma PlacesStep(m: Matcher, lines: seq<Reported>, i: nat)
    requires i < |lines|
    ensures Places(m, lines[..i + 1]) == Places(m, lines[..i]) + [PlaceOf(m, (lines[i].0, lines[i].1))]
  {
  }

  class Filter {
    const m: Matcher
    var source: Source
    var uniqueDomains: map<nat, nat>
    var domains: map<nat, seq<nat>>
    var shortcuts: map<nat, seq<nat>>
    var leftovers: seq<Leftover>
    var badfilter: map<nat, nat>

    constructor (m: Matcher)
      ensures this.m == m && Holds([])
    {
      this.m := m;
      source := InMemory("");
      uniqueDomains, domains, shortcuts, leftovers, badfilter := map[], map[], map[], [], map[];
    }

    /** The tables hold what the lines at these places put there, in the order of the lines. */
    ghost predicate Holds(places: seq<Place>)
      reads this
    {
      && DomainsIndex(uniqueDomains, domains, places)
      && ShortcutsIndex(shortcuts, places)
      && leftovers == Leftovers(places)
    }

    /** The hash is in at most one of the two tables, and looking it up yields the positions put under
        it, in order. */
    method PutHashIntoTables(hash: nat, pos: nat)
      requires uniqueDomains.Keys !! domains.Keys
      modifies this`uniqueDomains, this`domains
      ensures uniqueDomains.Keys !! domains.Keys
      ensures forall h: nat :: Lookup(uniqueDomains, domains, h)
                == old(Lookup(uniqueDomains, domains, h)) + (if h == hash then [pos] else [])
    {
      var stored: seq<nat> := [];
      if hash !in domains {
        if hash !in uniqueDomains {
          uniqueDomains := uniqueDomains[hash := pos];
          return;
        }
        stored := [uniqueDomains[hash]];
        uniqueDomains := uniqueDomains - {hash};
      }
      var positions := if hash in domains then domains[hash] else [];
      domains := domains[hash := positions + stored + [pos]];
    }

    method PutDomains(parts: seq<string>, pos: nat, ghost places: seq<Place>, ghost place: Place)
      requires DomainsIndex(uniqueDomains, domains, places)
      requires place.pos == pos && place.domains == HashAll(m, parts)
      modifies this`uniqueDomains, this`domains
      ensures DomainsIndex(uniqueDomains, domains, places + [place])
    {
      ghost var hashes := place.domains;
      PutNone(uniqueDomains, domains, places, place);
      var i := 0;
      while i < |parts|
        invariant 0 <= i <= |parts|
        invariant PutSome(uniqueDomains, domains, places, place, i)
      {
        ghost var unique, multi := uniqueDomains, domains;
        PutHashIntoTables(m.hash(parts[i]), pos);
        PutOneMore(unique, multi, uniqueDomains, domains, places, place, i);
        i := i + 1;
      }
      PutAll(uniqueDomains, domains, places, place);
    }

    method PutShortcut(hash: nat, pos: nat, ghost places: seq<Place>, ghost place: Place)
      requires ShortcutsIndex(shortcuts, places)
      requires place.pos == pos && place.shortcut == Some(hash)
      modifies this`shortcuts
      ensures ShortcutsIndex(shortcuts, places + [place])
    {
      if hash !in shortcuts {
        shortcuts := shortcuts[hash := [pos]];
      } else {
        shortcuts := shortcuts[hash := shortcuts[hash] + [pos]];
      }
      forall h: nat {
        DomainPositionsStep(places, place, h);
      }
    }

    /** The first piece long enough for the shortcuts table. */
    method FindLong(parts: seq<string>) returns (r: Option<string>)
      ensures r == FirstLong(parts)
    {
      r := None;
      var i := 0;
      while i < |parts|
        invariant 0 <= i <= |parts|
        invariant FirstLong(parts) == FirstLong(parts[i..])
      {
        if |parts[i]| >= SHORTCUT_LENGTH {
          return Some(parts[i]);
        }
        assert parts[i..][1..] == parts[i + 1..];
        i := i + 1;
      }
    }

    method LoadLine(pos: nat, line: string, ghost places: seq<Place>)
      requires Holds(places)
      modifies this
      ensures Holds(places + [PlaceOf(m, (pos, line))])
      ensures source == old(source)
    {
      ghost var place := PlaceOf(m, (pos, line));
      NothingPut(uniqueDomains, domains, shortcuts, places, place);
      LeftoversStep(places, place);
      var parsed := m.parse(line);
      if parsed.None? {
        return;
      }
      var rule := parsed.value;
      if rule.pub.props.badfilter {
        badfilter := badfilter[m.hash(TextWithoutBadfilter(rule.pub.text)) := pos];
        return;
      }
      if rule.method_.Exact? || rule.method_.Subdomains? {
        PutDomains(rule.parts, pos, places, place);
        return;
      }
      if !rule.method_.Regex? {
        var long := FindLong(rule.parts);
        if long.Some? {
          PutShortcut(m.hash(long.value[..SHORTCUT_LENGTH]), pos, places, place);
          return;
        }
      }
      var re := if rule.method_.Shortcuts? then None else Some(m.regexOf(rule.pub.text));
      leftovers := leftovers + [Leftover(LowerAll(rule.parts), re, pos)];
    }

    method Load(src: Source)
      requires Holds([])
      modifies this
      ensures source == src && Holds(Places(m, ReportedLines(src)))
    {
      var lines := ReadLines(src);
      LoadLines(lines);
      source := src;
    }

    method ReadLines(src: Source) returns (lines: seq<Reported>)
      ensures lines == ReportedLines(src)
    {
      match src {
        case InMemory(text) =>
          lines := ForEachLine(text);
        case OnDisk(text) =>
          var f := new File(text);
          lines := ForEachFileLine(f);
      }
    }

    method LoadLines(lines: seq<Reported>)
      requires Holds([])
      modifies this
      ensures Holds(Places(m, lines))
    {
      var i := 0;
      while i < |lines|
        invariant 0 <= i <= |lines|
        invariant Holds(Places(m, lines[..i]))
      {
        PlacesStep(m, lines, i);
        LoadLine(lines[i].0, lines[i].1, Places(m, lines[..i]));
        i := i + 1;
      }
      assert lines[..i] == lines;
    }

    // ----- searching ----------------------------------------------------------------------------

    method MatchAgainstLine(ctx: MatchContext, line: string) returns (matched: bool)
      requires ParsesSoundly(m) && ctx.Valid(m) && Trimmed(line)
      modifies ctx`matchedRules
      ensures ctx.Valid(m)
      ensures matched == LineMatches(m, line, ctx.host)
      ensures ctx.matchedRules
              == if matched then old(ctx.matchedRules) + [m.parse(line).value.pub] else old(ctx.matchedRules)
    {
      matched := false;
      var parsed := m.parse(line);
      if parsed.None? {
        return;
      }
      var rule := parsed.value;
      if rule.pub.props.badfilter {
        matched := true;
      } else {
        match rule.method_
        case Exact =>
          matched := ContainsPart(rule.parts, [ctx.host]);
        case Subdomains =>
          matched := ContainsPart(rule.parts, ctx.subdomains);
        case Shortcuts =>
          matched := MatchShortcutsLoop(rule.parts, ctx.host);
        case ShortcutsAndRegex =>
          matched := MatchShortcutsLoop(rule.parts, ctx.host);
          if matched {
            matched := m.regexMatches(m.regexOf(rule.pub.text), ctx.host);
          }
        case Regex =>
          matched := AnyMatches(m.regexOf(rule.pub.text), ctx.subdomains);
      }
      if matched {
        ctx.matchedRules := ctx.matchedRules + [rule.pub];
      }
    }

    /** Whether one of the parts of a rule is one of some names. */
    method ContainsPart(parts: seq<string>, names: seq<string>) returns (found: bool)
      ensures found <==> exists i :: 0 <= i < |parts| && parts[i] in names
    {
      found := false;
      for i := 0 to |parts|
        invariant found <==> exists k :: 0 <= k < i && parts[k] in names
      {
        for j := 0 to |names|
          invariant !found ==> parts[i] !in names[..j]
          invariant found <==> exists k :: 0 <= k < i && parts[k] in names
        {
          if parts[i] == names[j] {
            return true;
          }
        }
        assert names[..|names|] == names;
      }
    }

    method AnyMatches(re: string, names: seq<string>) returns (found: bool)
      ensures found == AnySubdomainMatches(m, re, names)
    {
      found := false;
      for i := 0 to |names|
        invariant !found
        invariant forall k :: 0 <= k < i ==> !m.regexMatches(re, names[k])
      {
        if m.regexMatches(re, names[i]) {
          return true;
        }
      }
    }

    method ReadLineAt(pos: nat) returns (line: Option<string>)
      ensures line == ReadAt(source, pos)
    {
      match source {
        case InMemory(text) =>
          line := ReadLine(text, pos);
        case OnDisk(text) =>
          var f := new File(text);
          var l := ReadFileLine(f, pos);
          line := Some(l);
      }
    }

    /** The texts found so far, in a context of this parser. */
    ghost function Found(ctx: MatchContext): Option<set<string>>
      reads ctx
    {
      if ParsesSoundly(m) && ctx.Valid(m) then Some(Texts(ctx.matchedRules)) else None
    }

    /** A line whose text is among the matched rules is passed over; its own rule's text is there. */
    method MatchByFilePosition(ctx: MatchContext, pos: nat)
      requires Found(ctx).Some?
      modifies ctx`matchedRules
      ensures Found(ctx) == Some(old(Found(ctx)).value + FoundAt(m, source, ctx.host, {pos}))
    {
      var line := ReadLineAt(pos);
      ReadsTrimmed(source, pos);
      ghost var before := ctx.matchedRules;
      if line.None? {
        assert Texts(before) + FoundAt(m, source, ctx.host, {pos}) == Texts(before);
        return;
      }
      if exists r :: r in ctx.matchedRules && r.text == line.value {
        var r :| r in ctx.matchedRules && r.text == line.value;
        assert OwnText(m, line.value);
        assert Texts(before) + FoundAt(m, source, ctx.host, {pos}) == Texts(before);
        return;
      }
      var matched := MatchAgainstLine(ctx, line.value);
      FoundOne(m, source, ctx.host, pos, before);
    }

    method MatchPositions(ctx: MatchContext, ps: seq<nat>)
      requires Found(ctx).Some?
      modifies ctx`matchedRules
      ensures Found(ctx) == Some(old(Found(ctx)).value + FoundAt(m, source, ctx.host, Elements(ps)))
    {
      ghost var found := Found(ctx).value;
      NoCandidates(m, uniqueDomains, domains, shortcuts, [], ctx.host, leftovers, ps);
      FoundAtNone(m, source, ctx.host, found, Elements(ps[..0]));
      var i := 0;
      while i < |ps|
        invariant 0 <= i <= |ps|
        invariant Found(ctx) == Some(found + FoundAt(m, source, ctx.host, Elements(ps[..i])))
      {
        MatchByFilePosition(ctx, ps[i]);
        ElementsStep(ps, i);
        FoundAtMore(m, source, ctx.host, found, Elements(ps[..i]), {ps[i]});
        i := i + 1;
      }
      assert ps[..i] == ps;
    }

    /** What is filed under a hash of a name. */
    method MatchHash(ctx: MatchContext, hash: nat)
      requires Found(ctx).Some?
      modifies ctx`matchedRules
      ensures Found(ctx) ==
              Some(old(Found(ctx)).value + FoundAt(m, source, ctx.host, Elements(Lookup(uniqueDomains, domains, hash))))
    {
      FoundAtNone(m, source, ctx.host, Found(ctx).value, {});
      NoCandidates(m, uniqueDomains, domains, shortcuts, [], ctx.host, leftovers, []);
      if hash in uniqueDomains {
        MatchPositions(ctx, [uniqueDomains[hash]]);
      } else if hash in domains {
        MatchPositions(ctx, domains[hash]);
      }
    }

    method SearchByDomains(ctx: MatchContext)
      requires Found(ctx).Some?
      modifies ctx`matchedRules
      ensures Found(ctx) ==
              Some(old(Found(ctx)).value
                   + FoundAt(m, source, ctx.host, DomainCandidates(m, uniqueDomains, domains, ctx.subdomains)))
    {
      var ds := ctx.subdomains;
      ghost var found := Found(ctx).value;
      NoCandidates(m, uniqueDomains, domains, shortcuts, ds, ctx.host, leftovers, []);
      FoundAtNone(m, source, ctx.host, found, DomainCandidates(m, uniqueDomains, domains, ds[..0]));
      var i := 0;
      while i < |ds|
        invariant 0 <= i <= |ds|
        invariant Found(ctx) ==
                  Some(found + FoundAt(m, source, ctx.host, DomainCandidates(m, uniqueDomains, domains, ds[..i])))
      {
        var hash := m.hash(ds[i]);
        MatchHash(ctx, hash);
        DomainCandidatesStep(m, uniqueDomains, domains, ds, i);
        FoundAtMore(m, source, ctx.host, found, DomainCandidates(m, uniqueDomains, domains, ds[..i]),
                    Elements(Lookup(uniqueDomains, domains, hash)));
        i := i + 1;
      }
      assert ds[..i] == ds;
    }

    /** What is filed under a hash of a window of the host. */
    method MatchWindow(ctx: MatchContext, hash: nat)
      requires Found(ctx).Some?
      modifies ctx`matchedRules
      ensures Found(ctx) ==
              Some(old(Found(ctx)).value + FoundAt(m, source, ctx.host, Elements(PositionsOf(shortcuts, hash))))
    {
      FoundAtNone(m, source, ctx.host, Found(ctx).value, {});
      NoCandidates(m, uniqueDomains, domains, shortcuts, [], ctx.host, leftovers, []);
      if hash in shortcuts {
        MatchPositions(ctx, shortcuts[hash]);
      }
    }

    method SearchByShortcuts(ctx: MatchContext)
      requires Found(ctx).Some?
      modifies ctx`matchedRules
      ensures Found(ctx) ==
              Some(old(Found(ctx)).value
                   + FoundAt(m, source, ctx.host, ShortcutCandidates(m, shortcuts, ctx.host, |ctx.host|)))
    {
      var host := ctx.host;
      ghost var found := Found(ctx).value;
      NoCandidates(m, uniqueDomains, domains, shortcuts, [], host, leftovers, []);
      FoundAtNone(m, source, host, found, {});
      if |host| < SHORTCUT_LENGTH {
        return;
      }
      var i := 0;
      while i <= |host| - SHORTCUT_LENGTH
        invariant 0 <= i <= |host| - SHORTCUT_LENGTH + 1
        invariant Found(ctx) == Some(found + FoundAt(m, source, host, ShortcutCandidates(m, shortcuts, host, i)))
      {
        var hash := m.hash(Window(host, i));
        MatchWindow(ctx, hash);
        ShortcutCandidatesStep(m, shortcuts, host, i);
        FoundAtMore(m, source, host, found, ShortcutCandidates(m, shortcuts, host, i),
                    Elements(PositionsOf(shortcuts, hash)));
        i := i + 1;
      }
      AllWindows(m, shortcuts, host, i);
    }

    method PassesEntry(entry: Leftover, host: string) returns (passes: bool)
      ensures passes == EntryPasses(m, entry, host)
    {
      passes := true;
      if entry.shortcuts != [] {
        passes := MatchShortcutsLoop(entry.shortcuts, host);
      }
      if passes && entry.regex.Some? {
        passes := m.regexMatches(entry.regex.value, host);
      }
    }

    method TryEntry(ctx: MatchContext, entry: Leftover)
      requires Found(ctx).Some?
      modifies ctx`matchedRules
      ensures Found(ctx) ==
              Some(old(Found(ctx)).value + FoundAt(m, source, ctx.host, EntryCandidates(m, entry, ctx.host)))
    {
      FoundAtNone(m, source, ctx.host, Found(ctx).value, {});
      var passes := PassesEntry(entry, ctx.host);
      if passes {
        MatchByFilePosition(ctx, entry.pos);
      }
    }

    method SearchInLeftovers(ctx: MatchContext)
      requires Found(ctx).Some?
      modifies ctx`matchedRules
      ensures Found(ctx) ==
              Some(old(Found(ctx)).value + FoundAt(m, source, ctx.host, LeftoverCandidates(m, leftovers, ctx.host)))
    {
      ghost var found := Found(ctx).value;
      NoCandidates(m, uniqueDomains, domains, shortcuts, [], ctx.host, leftovers, []);
      FoundAtNone(m, source, ctx.host, found, {});
      var i := 0;
      while i < |leftovers|
        invariant 0 <= i <= |leftovers|
        invariant Found(ctx) ==
                  Some(found + FoundAt(m, source, ctx.host, LeftoverCandidates(m, leftovers[..i], ctx.host)))
      {
        var entry := leftovers[i];
        TryEntry(ctx, entry);
        FoundInLeftovers(m, source, ctx.host, found, leftovers, i);
        i := i + 1;
      }
      assert leftovers[..i] == leftovers;
    }

    /** For a loaded rule list, every host and every hash function, the filter adds to the matched
        rules exactly the texts that a scan of every line of the list accepts. */
    method Match(ctx: MatchContext)
      requires ParsesSoundly(m) && ctx.Valid(m) && Holds(Places(m, ReportedLines(source)))
      modifies ctx`matchedRules
      ensures ctx.Valid(m)
      ensures Texts(ctx.matchedRules)
              == old(Texts(ctx.matchedRules)) + FoundByScan(m, ReportedLines(source), ctx.host)
    {
      Search(ctx);
      IndexFindsWhatAScanFinds(m, source, uniqueDomains, domains, shortcuts, ctx.host);
    }

    method Search(ctx: MatchContext)
      requires Found(ctx).Some?
      modifies ctx`matchedRules
      ensures Found(ctx) ==
              Some(old(Found(ctx)).value
                   + FoundAt(m, source, ctx.host,
                             Candidates(m, uniqueDomains, domains, shortcuts, leftovers, ctx.host)))
    {
      ghost var found, host := Found(ctx).value, ctx.host;
      ghost var byDomain := DomainCandidates(m, uniqueDomains, domains, ctx.subdomains);
      ghost var byShortcut := ShortcutCandidates(m, shortcuts, host, |host|);
      SearchByDomains(ctx);
      SearchByShortcuts(ctx);
      SearchInLeftovers(ctx);
      FoundAtMore(m, source, host, found, byDomain, byShortcut);
      FoundAtMore(m, source, host, found, byDomain + byShortcut, LeftoverCandidates(m, leftovers, host));
    }
  }

  // ----- accumulating candidates ------------------------------------------------------------------

  /** One line adds its text to those of the rules before, if it is accepted. */
  lemma FoundOne(m: Matcher, src: Source, host: string, pos: nat, before: seq<Rule>)
    requires ReadAt(src, pos).Some?
    ensures var line := ReadAt(src, pos).value;
            Texts(before) + FoundAt(m, src, host, {pos}) ==
            Texts(if LineMatches(m, line, host) then before + [m.parse(line).value.pub] else before)
  {
    var line := ReadAt(src, pos).value;
    if LineMatches(m, line, host) {
      assert Texts(before + [m.parse(line).value.pub]) == Texts(before) + {TextOf(m, line)};
      assert FoundAt(m, src, host, {pos}) == {TextOf(m, line)};
    } else {
      assert FoundAt(m, src, host, {pos}) == {};
    }
  }

  lemma FoundAtMore(m: Matcher, src: Source, host: string, found: set<string>, a: set<nat>, b: set<nat>)
    ensures (found + FoundAt(m, src, host, a)) + FoundAt(m, src, host, b) == found + FoundAt(m, src, host, a + b)
  {
    assert FoundAt(m, src, host, a + b) == FoundAt(m, src, host, a) + FoundAt(m, src, host, b);
  }

  lemma FoundAtNone(m: Matcher, src: Source, host: string, found: set<string>, a: set<nat>)
    requires a == {}
    ensures found + FoundAt(m, src, host, a) == found
  {
  }

  lemma NoCandidates(m: Matcher, unique: map<nat, nat>, multi: map<nat, seq<nat>>, shortcuts: map<nat, seq<nat>>,
                     ds: seq<string>, host: string, entries: seq<Leftover>, ps: seq<nat>)
    ensures DomainCandidates(m, unique, multi, ds[..0]) == {} && ShortcutCandidates(m, shortcuts, host, 0) == {}
    ensures LeftoverCandidates(m, entries[..0], host) == {} && Elements(ps[..0]) == {} && Elements([]) == {}
    ensures |host| < SHORTCUT_LENGTH ==> ShortcutCandidates(m, shortcuts, host, |host|) == {}
  {
  }

  lemma ElementsStep(ps: seq<nat>, i: nat)
    requires i < |ps|
    ensures Elements(ps[..i + 1]) == Elements(ps[..i]) + {ps[i]}
  {
  }

  lemma AllWindows(m: Matcher, table: map<nat, seq<nat>>, host: string, i: nat)
    requires i <= |host| < i + SHORTCUT_LENGTH
    ensures ShortcutCandidates(m, table, host, i) == ShortcutCandidates(m, table, host, |host|)
  {
  }

  lemma DomainCandidatesStep(m: Matcher, unique: map<nat, nat>, multi: map<nat, seq<nat>>, ds: seq<string>, i: nat)
    requires i < |ds|
    ensures DomainCandidates(m, unique, multi, ds[..i + 1])
            == DomainCandidates(m, unique, multi, ds[..i]) + Elements(Lookup(unique, multi, m.hash(ds[i])))
  {
    var a, b := ds[..i + 1], ds[..i];
    assert forall j :: 0 <= j < i ==> a[j] == b[j];
    assert a[i] == ds[i];
    forall p | p in DomainCandidates(m, unique, multi, a)
      ensures p in DomainCandidates(m, unique, multi, b) + Elements(Lookup(unique, multi, m.hash(ds[i])))
    {
      var j :| 0 <= j < |a| && p in Lookup(unique, multi, m.hash(a[j]));
    }
    forall p | p in DomainCandidates(m, unique, multi, b)
      ensures p in DomainCandidates(m, unique, multi, a)
    {
      var j :| 0 <= j < |b| && p in Lookup(unique, multi, m.hash(b[j]));
      assert p in Lookup(unique, multi, m.hash(a[j]));
    }
    forall p | p in Lookup(unique, multi, m.hash(ds[i]))
      ensures p in DomainCandidates(m, unique, multi, a)
    {
      assert p in Lookup(unique, multi, m.hash(a[i]));
    }
  }

  lemma ShortcutCandidatesStep(m: Matcher, table: map<nat, seq<nat>>, host: string, i: nat)
    requires i + SHORTCUT_LENGTH <= |host|
    ensures ShortcutCandidates(m, table, host, i + 1)
            == ShortcutCandidates(m, table, host, i) + Elements(PositionsOf(table, m.hash(Window(host, i))))
  {
    forall p | p in ShortcutCandidates(m, table, host, i + 1)
      ensures p in ShortcutCandidates(m, table, host, i) + Elements(PositionsOf(table, m.hash(Window(host, i))))
    {
      var j :| 0 <= j < i + 1 && j + SHORTCUT_LENGTH <= |host| && p in PositionsOf(table, m.hash(Window(host, j)));
    }
  }

  /** What one leftover entry contributes. */
  function EntryCandidates(m: Matcher, entry: Leftover, host: string): set<nat> {
    if EntryPasses(m, entry, host) then {entry.pos} else {}
  }

  lemma FoundInLeftovers(m: Matcher, src: Source, host: string, found: set<string>, entries: seq<Leftover>, i: nat)
    requires i < |entries|
    ensures (found + FoundAt(m, src, host, LeftoverCandidates(m, entries[..i], host)))
              + FoundAt(m, src, host, EntryCandidates(m, entries[i], host))
            == found + FoundAt(m, src, host, LeftoverCandidates(m, entries[..i + 1], host))
  {
    LeftoverCandidatesStep(m, entries, host, i);
    FoundAtMore(m, src, host, found, LeftoverCandidates(m, entries[..i], host), EntryCandidates(m, entries[i], host));
  }

  lemma LeftoverCandidatesStep(m: Matcher, entries: seq<Leftover>, host: string, i: nat)
    requires i < |entries|
    ensures LeftoverCandidates(m, entries[..i + 1], host)
            == LeftoverCandidates(m, entries[..i], host) + EntryCandidates(m, entries[i], host)
  {
    var a, b := entries[..i + 1], entries[..i];
    assert forall j :: 0 <= j < i ==> a[j] == b[j];
    assert a[i] == entries[i];
    forall p | p in LeftoverCandidates(m, b, host)
      ensures p in LeftoverCandidates(m, a, host)
    {
      var j :| 0 <= j < |b| && EntryPasses(m, b[j], host) && b[j].pos == p;
      assert EntryPasses(m, a[j], host);
    }
    if EntryPasses(m, entries[i], host) {
      assert EntryPasses(m, a[i], host);
    }
  }
}
