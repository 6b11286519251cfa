/** The filter of dnsfilter/src/filter.cpp: the tables a rule list is loaded into, and the search that
    finds the rules of a host in them again. */
module FilterIndex {
  import opened Text
  import opened Lines
  import opened Shortcuts
  import opened FilterSpec

  // ----- the tables as values ---------------------------------------------------------------------

  /** The positions of a hash in the two domain tables, of which at most one holds it. */
  function Lookup(unique: map<nat, nat>, multi: map<nat, seq<nat>>, h: nat): seq<nat> {
    if h in unique then [unique[h]] else PositionsOf(multi, h)
  }

  function PositionsOf(table: map<nat, seq<nat>>, h: nat): seq<nat> {
    if h in table then table[h] else []
  }

  /** The tables hold exactly what the loaded lines put there. */
  ghost predicate DomainsIndex(unique: map<nat, nat>, multi: map<nat, seq<nat>>, places: seq<Place>) {
    && unique.Keys !! multi.Keys
    && forall h: nat :: Lookup(unique, multi, h) == DomainPositions(places, h)
  }

  ghost predicate ShortcutsIndex(table: map<nat, seq<nat>>, places: seq<Place>) {
    forall h: nat :: PositionsOf(table, h) == ShortcutPositions(places, h)
  }

  // ----- candidates -------------------------------------------------------------------------------

  function Elements(ps: seq<nat>): set<nat> {
    set p | p in ps
  }

  /** The positions looked at for a list of domains. */
  function DomainCandidates(m: Matcher, unique: map<nat, nat>, multi: map<nat, seq<nat>>, ds: seq<string>): set<nat> {
    set i, p | 0 <= i < |ds| && p in Lookup(unique, multi, m.hash(ds[i])) :: p
  }

  /** The characters a host is cut into for the shortcuts table. */
  function Window(host: string, i: nat): string {
    if i + SHORTCUT_LENGTH <= |host| then host[i..i + SHORTCUT_LENGTH] else ""
  }

  /** The positions looked at for the windows of a host that start before `n`. */
  function ShortcutCandidates(m: Matcher, table: map<nat, seq<nat>>, host: string, n: nat): set<nat> {
    set i, p | 0 <= i < n && i + SHORTCUT_LENGTH <= |host|
               && p in PositionsOf(table, m.hash(Window(host, i))) :: p
  }

  function LeftoverCandidates(m: Matcher, entries: seq<Leftover>, host: string): set<nat> {
    set i | 0 <= i < |entries| && EntryPasses(m, entries[i], host) :: entries[i].pos
  }

  /** The texts of the rules at some positions that match a host. */
  function FoundAt(m: Matcher, src: Source, host: string, ps: set<nat>): set<string> {
    set p | p in ps && ReadAt(src, p).Some? && LineMatches(m, ReadAt(src, p).value, host)
      :: TextOf(m, ReadAt(src, p).value)
  }

  /** The texts of the rules of a list that the filter accepts, found by scanning all of it. */
  function FoundByScan(m: Matcher, lines: seq<Reported>, host: string): set<string> {
    set k | 0 <= k < |lines| && IndexAccepts(m, lines[k].1, host) :: TextOf(m, lines[k].1)
  }

  // ----- every candidate is a line of its kind ------------------------------------------------------

  /** A line of which the comparison alone decides whether the filter accepts it. */
  ghost predicate Admissible(m: Matcher, line: string, host: string) {
    LineMatches(m, line, host) ==> IndexAccepts(m, line, host)
  }

  lemma DomainCandidateIsLine(m: Matcher, lines: seq<Reported>, h: nat, p: nat, host: string) returns (k: nat)
    requires p in DomainPositions(Places(m, lines), h)
    ensures k < |lines| && lines[k].0 == p && Admissible(m, lines[k].1, host)
  {
    InDomainPositions(Places(m, lines), h, p);
    k :| 0 <= k < |lines| && Places(m, lines)[k].pos == p && h in Places(m, lines)[k].domains;
    assert h in DomainHashes(m, lines[k].1);
  }

  lemma ShortcutCandidateIsLine(m: Matcher, lines: seq<Reported>, h: nat, p: nat, host: string) returns (k: nat)
    requires p in ShortcutPositions(Places(m, lines), h)
    ensures k < |lines| && lines[k].0 == p && Admissible(m, lines[k].1, host)
  {
    InShortcutPositions(Places(m, lines), h, p);
    k :| 0 <= k < |lines| && Places(m, lines)[k].pos == p && Places(m, lines)[k].shortcut == Some(h);
    assert ShortcutHash(m, lines[k].1) == Some(h);
  }

  lemma LeftoverIsAdmissible(m: Matcher, pos: nat, line: string, host: string)
    requires ParsesSoundly(m) && LeftoverOf(m, pos, line).Some?
    ensures EntryPasses(m, LeftoverOf(m, pos, line).value, host) <==>
            PassesGate(m, m.parse(line).value, host)
    ensures !IsBadfilter(m, line)
  {
    assert LowerParts(m.parse(line).value);
  }

  lemma LeftoverCandidateIsLine(m: Matcher, lines: seq<Reported>, p: nat, host: string) returns (k: nat)
    requires ParsesSoundly(m) && p in LeftoverCandidates(m, Leftovers(Places(m, lines)), host)
    ensures k < |lines| && lines[k].0 == p && Admissible(m, lines[k].1, host)
  {
    var entries := Leftovers(Places(m, lines));
    var i :| 0 <= i < |entries| && EntryPasses(m, entries[i], host) && entries[i].pos == p;
    InLeftovers(Places(m, lines), entries[i]);
    k :| 0 <= k < |lines| && Places(m, lines)[k].leftover == Some(entries[i]);
    assert LeftoverOf(m, lines[k].0, lines[k].1) == Some(entries[i]);
    LeftoverIsAdmissible(m, lines[k].0, lines[k].1, host);
  }

  // ----- every accepted line is a candidate ---------------------------------------------------------

  /** A piece that occurs in the host brings its first five characters along as one of the windows. */
  lemma PieceHasWindow(host: string, piece: string, q: nat)
    requires OccursAt(host, piece, q) && |piece| >= SHORTCUT_LENGTH
    ensures q + SHORTCUT_LENGTH <= |host| && Window(host, q) == piece[..SHORTCUT_LENGTH]
  {
    assert host[q..q + |piece|][..SHORTCUT_LENGTH] == host[q..q + SHORTCUT_LENGTH];
  }

  lemma {:induction false} PiecesOccur(parts: seq<string>, host: string, seek: nat, piece: string) returns (q: nat)
    requires MatchFrom(parts, host, seek) && piece in parts
    ensures OccursAt(host, piece, q)
  {
    if parts[0] == piece {
      q := Find(host, parts[0], seek).value;
    } else {
      q := PiecesOccur(parts[1..], host, seek + |parts[0]|, piece);
    }
  }

  /** The part of the rule that is a subdomain of the host. */
  lemma AcceptedDomain(m: Matcher, line: string, host: string) returns (d: string)
    requires IndexAccepts(m, line, host)
    requires m.parse(line).value.method_.Exact? || m.parse(line).value.method_.Subdomains?
    ensures d in m.parse(line).value.parts && d in SubdomainsOf(host)
  {
    var rule := m.parse(line).value;
    if rule.method_.Exact? {
      d := host;
      assert SubdomainsOf(host)[0] == host;
    } else {
      var i :| 0 <= i < |rule.parts| && rule.parts[i] in SubdomainsOf(host);
      d := rule.parts[i];
    }
  }

  lemma PutUnderHash(m: Matcher, lines: seq<Reported>, k: nat, d: string)
    requires k < |lines| && m.parse(lines[k].1).Some? && !m.parse(lines[k].1).value.pub.props.badfilter
    requires m.parse(lines[k].1).value.method_.Exact? || m.parse(lines[k].1).value.method_.Subdomains?
    requires d in m.parse(lines[k].1).value.parts
    ensures lines[k].0 in DomainPositions(Places(m, lines), m.hash(d))
  {
    var rule := m.parse(lines[k].1).value;
    var j :| 0 <= j < |rule.parts| && rule.parts[j] == d;
    assert HashAll(m, rule.parts)[j] == m.hash(d);
    InDomainPositions(Places(m, lines), m.hash(d), lines[k].0);
    assert Places(m, lines)[k].pos == lines[k].0;
  }

  lemma ByDomain(m: Matcher, unique: map<nat, nat>, multi: map<nat, seq<nat>>, lines: seq<Reported>,
                 host: string, k: nat)
    requires DomainsIndex(unique, multi, Places(m, lines)) && k < |lines|
    requires IndexAccepts(m, lines[k].1, host)
    requires m.parse(lines[k].1).value.method_.Exact? || m.parse(lines[k].1).value.method_.Subdomains?
    ensures lines[k].0 in DomainCandidates(m, unique, multi, SubdomainsOf(host))
  {
    var subdomains := SubdomainsOf(host);
    var d := AcceptedDomain(m, lines[k].1, host);
    PutUnderHash(m, lines, k, d);
    var i :| 0 <= i < |subdomains| && subdomains[i] == d;
    assert lines[k].0 in Lookup(unique, multi, m.hash(subdomains[i]));
  }

  lemma ByShortcut(m: Matcher, table: map<nat, seq<nat>>, lines: seq<Reported>, host: string, k: nat)
    requires ShortcutsIndex(table, Places(m, lines)) && k < |lines|
    requires IndexAccepts(m, lines[k].1, host) && ShortcutHash(m, lines[k].1).Some?
    ensures lines[k].0 in ShortcutCandidates(m, table, host, |host|)
  {
    var rule := m.parse(lines[k].1).value;
    var piece := FirstLong(rule.parts).value;
    var q := PiecesOccur(rule.parts, host, 0, piece);
    PieceHasWindow(host, piece, q);
    var h := m.hash(Window(host, q));
    InShortcutPositions(Places(m, lines), h, lines[k].0);
    assert Places(m, lines)[k].pos == lines[k].0;
    assert lines[k].0 in PositionsOf(table, h);
  }

  lemma AcceptedPassesGate(m: Matcher, line: string, host: string)
    requires ParsesSoundly(m) && IndexAccepts(m, line, host) && LeftoverOf(m, 0, line).Some?
    ensures PassesGate(m, m.parse(line).value, host)
  {
  }

  lemma ByLeftover(m: Matcher, lines: seq<Reported>, host: string, k: nat)
    requires ParsesSoundly(m) && k < |lines|
    requires IndexAccepts(m, lines[k].1, host) && LeftoverOf(m, 0, lines[k].1).Some?
    ensures lines[k].0 in LeftoverCandidates(m, Leftovers(Places(m, lines)), host)
  {
    AcceptedPassesGate(m, lines[k].1, host);
    LeftoverIsAdmissible(m, lines[k].0, lines[k].1, host);
    var entry := LeftoverOf(m, lines[k].0, lines[k].1).value;
    InLeftovers(Places(m, lines), entry);
    assert Places(m, lines)[k].leftover == Some(entry);
    var entries := Leftovers(Places(m, lines));
    var i :| 0 <= i < |entries| && entries[i] == entry;
    assert EntryPasses(m, entries[i], host);
  }

  // ----- the index finds what a scan finds ------------------------------------------------------------

  ghost function Candidates(m: Matcher, unique: map<nat, nat>, multi: map<nat, seq<nat>>,
                            shortcuts: map<nat, seq<nat>>, leftovers: seq<Leftover>, host: string): set<nat>
  {
    DomainCandidates(m, unique, multi, SubdomainsOf(host))
    + ShortcutCandidates(m, shortcuts, host, |host|)
    + LeftoverCandidates(m, leftovers, host)
  }

  lemma CandidateIsAdmissible(m: Matcher, unique: map<nat, nat>, multi: map<nat, seq<nat>>,
                              shortcuts: map<nat, seq<nat>>, lines: seq<Reported>, host: string, p: nat)
    returns (k: nat)
    requires ParsesSoundly(m)
    requires DomainsIndex(unique, multi, Places(m, lines))
    requires ShortcutsIndex(shortcuts, Places(m, lines))
    requires p in Candidates(m, unique, multi, shortcuts, Leftovers(Places(m, lines)), host)
    ensures k < |lines| && lines[k].0 == p && Admissible(m, lines[k].1, host)
  {
    var ds := SubdomainsOf(host);
    if p in DomainCandidates(m, unique, multi, ds) {
      var i :| 0 <= i < |ds| && p in Lookup(unique, multi, m.hash(ds[i]));
      k := DomainCandidateIsLine(m, lines, m.hash(ds[i]), p, host);
    } else if p in ShortcutCandidates(m, shortcuts, host, |host|) {
      var i :| 0 <= i < |host| && i + SHORTCUT_LENGTH <= |host| && p in PositionsOf(shortcuts, m.hash(Window(host, i)));
      k := ShortcutCandidateIsLine(m, lines, m.hash(Window(host, i)), p, host);
    } else {
      k := LeftoverCandidateIsLine(m, lines, p, host);
    }
  }

  lemma AcceptedIsCandidate(m: Matcher, unique: map<nat, nat>, multi: map<nat, seq<nat>>,
                            shortcuts: map<nat, seq<nat>>, lines: seq<Reported>, host: string, k: nat)
    requires ParsesSoundly(m)
    requires DomainsIndex(unique, multi, Places(m, lines))
    requires ShortcutsIndex(shortcuts, Places(m, lines))
    requires k < |lines| && IndexAccepts(m, lines[k].1, host)
    ensures lines[k].0 in Candidates(m, unique, multi, shortcuts, Leftovers(Places(m, lines)), host)
  {
    var rule := m.parse(lines[k].1).value;
    if rule.method_.Exact? || rule.method_.Subdomains? {
      ByDomain(m, unique, multi, lines, host, k);
    } else if ShortcutHash(m, lines[k].1).Some? {
      ByShortcut(m, shortcuts, lines, host, k);
    } else {
      ByLeftover(m, lines, host, k);
    }
  }

  /** For every hash function and every host, the rule texts found through the tables are those found
      by scanning every line. */
  lemma IndexFindsWhatAScanFinds(m: Matcher, src: Source, unique: map<nat, nat>, multi: map<nat, seq<nat>>,
                                 shortcuts: map<nat, seq<nat>>, host: string)
    requires ParsesSoundly(m)
    requires DomainsIndex(unique, multi, Places(m, ReportedLines(src)))
    requires ShortcutsIndex(shortcuts, Places(m, ReportedLines(src)))
    ensures var lines := ReportedLines(src);
            FoundAt(m, src, host, Candidates(m, unique, multi, shortcuts, Leftovers(Places(m, lines)), host))
              == FoundByScan(m, lines, host)
  {
    var lines := ReportedLines(src);
    var ps := Candidates(m, unique, multi, shortcuts, Leftovers(Places(m, lines)), host);
    forall text | text in FoundAt(m, src, host, ps)
      ensures text in FoundByScan(m, lines, host)
    {
      FoundIsScanned(m, src, unique, multi, shortcuts, host, text);
    }
    forall text | text in FoundByScan(m, lines, host)
      ensures text in FoundAt(m, src, host, ps)
    {
      ScannedIsFound(m, src, unique, multi, shortcuts, host, text);
    }
  }

  lemma FoundIsScanned(m: Matcher, src: Source, unique: map<nat, nat>, multi: map<nat, seq<nat>>,
                       shortcuts: map<nat, seq<nat>>, host: string, text: string)
    requires ParsesSoundly(m)
    requires DomainsIndex(unique, multi, Places(m, ReportedLines(src)))
    requires ShortcutsIndex(shortcuts, Places(m, ReportedLines(src)))
    requires text in FoundAt(m, src, host,
                             Candidates(m, unique, multi, shortcuts, Leftovers(Places(m, ReportedLines(src))), host))
    ensures text in FoundByScan(m, ReportedLines(src), host)
  {
    var ps := Candidates(m, unique, multi, shortcuts, Leftovers(Places(m, ReportedLines(src))), host);
    var p :| p in ps && ReadAt(src, p).Some? && LineMatches(m, ReadAt(src, p).value, host)
             && text == TextOf(m, ReadAt(src, p).value);
    var k := CandidateIsAdmissible(m, unique, multi, shortcuts, ReportedLines(src), host, p);
    ReadsBack(src, k);
  }

  lemma ScannedIsFound(m: Matcher, src: Source, unique: map<nat, nat>, multi: map<nat, seq<nat>>,
                       shortcuts: map<nat, seq<nat>>, host: string, text: string)
    requires ParsesSoundly(m)
    requires DomainsIndex(unique, multi, Places(m, ReportedLines(src)))
    requires ShortcutsIndex(shortcuts, Places(m, ReportedLines(src)))
    requires text in FoundByScan(m, ReportedLines(src), host)
    ensures text in FoundAt(m, src, host,
                            Candidates(m, unique, multi, shortcuts, Leftovers(Places(m, ReportedLines(src))), host))
  {
    var lines := ReportedLines(src);
    var k :| 0 <= k < |lines| && IndexAccepts(m, lines[k].1, host) && text == TextOf(m, lines[k].1);
    AcceptedIsCandidate(m, unique, multi, shortcuts, lines, host, k);
    ReadsBack(src, k);
  }
}
