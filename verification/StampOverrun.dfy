/** When reading a stamp (dnsstamp/src/dns_stamp.cpp) looks at a byte behind the end: a size is read without asking whether
    there is one. Said on the bytes of the stamp, by what the writer would have had to write. */
module StampOverrun {
  import opened Text
  import opened Base64
  import opened DnsStamp
  import opened StampRoundTrip

  // ----- stamps that are cut at the border of two fields ------------------------------------------------------

  /** The size of a hash takes seven bits; a hash in a list may be empty. */
  predicate FitEntry(d: Bytes) { |d| <= 127 }

  /** Hashes that each announce another one. */
  function Continued(ds: seq<Bytes>): Bytes {
    if ds == [] then [] else WithSize(ds[0], true) + Continued(ds[1..])
  }

  predicate FitEntries(ds: seq<Bytes>) {
    ds == [] || (FitEntry(ds[0]) && FitEntries(ds[1..]))
  }

  ghost predicate OpenList(b: Bytes) {
    exists ds :: FitEntries(ds) && b == Continued(ds)
  }

  /** A whole list of hashes: the last one announces no other. */
  ghost predicate HashList(b: Bytes) {
    exists open, d :: OpenList(open) && FitEntry(d) && b == open + WithSize(d, false)
  }

  ghost predicate Field(b: Bytes) {
    exists d :: FitsByte(d) && b == WithSize(d, false)
  }

  ghost predicate ListAndField(b: Bytes) {
    exists list, f :: HashList(list) && Field(f) && b == list + f
  }

  /** What follows the address ends where another size is due. */
  ghost predicate CutShort(p: Proto, rest: Bytes) {
    match p
    case Plain => false
    case DnsCrypt => rest == [] || Field(rest)
    case Tls => OpenList(rest) || HashList(rest)
    case Doq => OpenList(rest) || HashList(rest)
    case Doh => OpenList(rest) || HashList(rest) || ListAndField(rest)
  }

  /** A stamp of sufficient size with a well-formed address, cut short behind it. */
  ghost predicate Overruns(p: Proto, v: Bytes) {
    |v| >= MinSize(p) && AddressThen(v, rest => CutShort(p, rest))
  }

  /** A well-formed address behind the properties, and something of a kind behind it. */
  ghost predicate AddressThen(v: Bytes, kind: Bytes -> bool) {
    |v| >= 9 && exists addr, rest ::
      FitsByte(addr) && !SplitHostPort(addr).2 && v[9..] == WithSize(addr, false) + rest && kind(rest)
  }

  // ----- one field --------------------------------------------------------------------------------------------

  lemma FieldAt(v: Bytes, pos: nat)
    requires pos <= |v|
    ensures ReadField(v, pos).OutOfBounds? <==> v[pos..] == []
    ensures ReadField(v, pos).Ok? ==>
              var (d, next) := ReadField(v, pos).value;
              FitsByte(d) && next <= |v| && v[pos..] == WithSize(d, false) + v[next..]
  {
    if ReadField(v, pos).Ok? {
      var (d, next) := ReadField(v, pos).value;
      assert v[pos..] == [v[pos]] + v[pos + 1..next] + v[next..];
    }
  }

  lemma FieldBehind(v: Bytes, pos: nat, d: Bytes, rest: Bytes)
    requires pos <= |v| && FitsByte(d) && v[pos..] == WithSize(d, false) + rest
    ensures ReadField(v, pos) == Ok((d, |v| - |rest|)) && |rest| <= |v| && v[|v| - |rest|..] == rest
  {
    var next := pos + 1 + |d|;
    assert v[pos] == v[pos..][0];
    assert v[pos + 1..next] == v[pos..][1..1 + |d|] == d;
    assert v[next..] == v[pos..][1 + |d|..] == rest;
  }

  /** Reading a field overruns at the end; behind a field it goes on with what follows. */
  lemma FieldOutcome(v: Bytes, pos: nat)
    requires pos <= |v|
    ensures ReadField(v, pos).Ok? && ReadField(v, pos).value.1 == |v| <==> Field(v[pos..])
  {
    FieldAt(v, pos);
    if ReadField(v, pos).Ok? && ReadField(v, pos).value.1 == |v| {
      var d := ReadField(v, pos).value.0;
      assert WithSize(d, false) + v[|v|..] == WithSize(d, false);
    }
    if Field(v[pos..]) {
      var d :| FitsByte(d) && v[pos..] == WithSize(d, false);
      assert WithSize(d, false) == WithSize(d, false) + [];
      FieldBehind(v, pos, d, []);
    }
  }

  // ----- hashes -----------------------------------------------------------------------------------------------

  lemma EntryAt(v: Bytes, pos: nat)
    requires pos < |v| && pos + 1 + v[pos] % 128 <= |v|
    ensures var next := pos + 1 + v[pos] % 128;
            var d := v[pos + 1..next];
            FitEntry(d) && v[pos..] == WithSize(d, v[pos] >= 128) + v[next..]
  {
    var next := pos + 1 + v[pos] % 128;
    assert v[pos..] == [v[pos]] + v[pos + 1..next] + v[next..];
  }

  lemma EntryBehind(v: Bytes, pos: nat, d: Bytes, more: bool, rest: Bytes)
    requires pos <= |v| && FitEntry(d) && v[pos..] == WithSize(d, more) + rest
    ensures pos < |v| && v[pos] % 128 == |d| && (v[pos] >= 128 <==> more)
    ensures pos + 1 + |d| <= |v| && v[pos + 1 + |d|..] == rest
  {
    var next := pos + 1 + |d|;
    assert v[pos] == v[pos..][0];
    assert v[next..] == v[pos..][1 + |d|..] == rest;
  }

  lemma OpenListCons(d: Bytes, open: Bytes)
    requires FitEntry(d) && OpenList(open)
    ensures OpenList(WithSize(d, true) + open)
  {
    var ds :| FitEntries(ds) && open == Continued(ds);
    var longer := [d] + ds;
    assert longer[1..] == ds;
    assert Continued(longer) == WithSize(d, true) + open;
  }

  /** Where the reading of hashes ends. */
  function HashesEnd(v: Bytes, pos: nat): Result<nat>
    decreases |v| - pos
  {
    if pos >= |v| then OutOfBounds
    else
      var next := pos + 1 + v[pos] % 128;
      if next > |v| then Error("Invalid stamp")
      else if v[pos] >= 128 then HashesEnd(v, next)
      else Ok(next)
  }

  lemma {:induction false} HashesEndThere(v: Bytes, pos: nat, before: seq<Bytes>)
    ensures HashesEnd(v, pos).OutOfBounds? <==> ReadHashes(v, pos, before).OutOfBounds?
    ensures HashesEnd(v, pos).Ok? <==> ReadHashes(v, pos, before).Ok?
    ensures HashesEnd(v, pos).Ok? ==> HashesEnd(v, pos).value == ReadHashes(v, pos, before).value.1
    decreases |v| - pos
  {
    if pos < |v| {
      var next := pos + 1 + v[pos] % 128;
      if next <= |v| && v[pos] >= 128 {
        HashesEndThere(v, next, if next > pos + 1 then before + [v[pos + 1..next]] else before);
      }
    }
  }

  /** An overrun among the hashes comes behind hashes that all announce another one. */
  lemma {:induction false} OverrunIsOpen(v: Bytes, pos: nat)
    requires pos <= |v| && HashesEnd(v, pos).OutOfBounds?
    ensures OpenList(v[pos..])
    decreases |v| - pos
  {
    if pos == |v| {
      assert v[pos..] == Continued([]);
    } else {
      EntryAt(v, pos);
      var next := pos + 1 + v[pos] % 128;
      OverrunIsOpen(v, next);
      OpenListCons(v[pos + 1..next], v[next..]);
    }
  }

  /** Hashes that were read are a whole list. */
  lemma {:induction false} ReadIsList(v: Bytes, pos: nat) returns (list: Bytes)
    requires pos <= |v| && HashesEnd(v, pos).Ok?
    ensures HashesEnd(v, pos).value <= |v| && HashList(list) && v[pos..] == list + v[HashesEnd(v, pos).value..]
    decreases |v| - pos
  {
    EntryAt(v, pos);
    var next := pos + 1 + v[pos] % 128;
    var d := v[pos + 1..next];
    if v[pos] >= 128 {
      var tail := ReadIsList(v, next);
      list := LongerList(d, tail, v[next..], v[HashesEnd(v, pos).value..]);
    } else {
      list := WithSize(d, false);
      HashListOne(d);
    }
  }

  lemma LongerList(d: Bytes, tail: Bytes, b: Bytes, rest: Bytes) returns (list: Bytes)
    requires FitEntry(d) && HashList(tail) && b == tail + rest
    ensures HashList(list) && WithSize(d, true) + b == list + rest
  {
    list := WithSize(d, true) + tail;
    HashListCons(d, tail);
    Regroup(WithSize(d, true), tail, rest);
  }

  lemma HashListOne(d: Bytes)
    requires FitEntry(d)
    ensures HashList(WithSize(d, false))
  {
    assert Continued([]) == [];
    assert OpenList([]);
    assert WithSize(d, false) == [] + WithSize(d, false);
  }

  lemma HashListCons(d: Bytes, tail: Bytes)
    requires FitEntry(d) && HashList(tail)
    ensures HashList(WithSize(d, true) + tail)
  {
    var open, e :| OpenList(open) && FitEntry(e) && tail == open + WithSize(e, false);
    OpenListCons(d, open);
    Regroup(WithSize(d, true), open, WithSize(e, false));
  }

  /** Hashes that announce another one are passed, whatever follows. */
  lemma {:induction false} OpenIsPassed(v: Bytes, pos: nat, ds: seq<Bytes>, rest: Bytes)
    requires pos <= |v| && FitEntries(ds) && v[pos..] == Continued(ds) + rest
    ensures |rest| <= |v| && v[|v| - |rest|..] == rest && HashesEnd(v, pos) == HashesEnd(v, |v| - |rest|)
    decreases |ds|
  {
    if ds == [] {
      assert v[pos..] == rest;
    } else {
      FirstIsPassed(v, pos, ds[0], Continued(ds[1..]), rest);
      OpenIsPassed(v, pos + 1 + |ds[0]|, ds[1..], rest);
    }
  }

  lemma FirstIsPassed(v: Bytes, pos: nat, d: Bytes, more: Bytes, rest: Bytes)
    requires pos <= |v| && FitEntry(d) && v[pos..] == (WithSize(d, true) + more) + rest
    ensures var next := pos + 1 + |d|;
            next <= |v| && v[next..] == more + rest && HashesEnd(v, pos) == HashesEnd(v, next)
  {
    Regroup(WithSize(d, true), more, rest);
    EntryIsPassed(v, pos, d, more + rest);
  }

  lemma EntryIsPassed(v: Bytes, pos: nat, d: Bytes, rest: Bytes)
    requires pos <= |v| && FitEntry(d) && v[pos..] == WithSize(d, true) + rest
    ensures var next := pos + 1 + |d|;
            next <= |v| && v[next..] == rest && HashesEnd(v, pos) == HashesEnd(v, next)
  {
    EntryBehind(v, pos, d, true, rest);
  }

  lemma OpenOverruns(v: Bytes, pos: nat)
    requires pos <= |v| && OpenList(v[pos..])
    ensures HashesEnd(v, pos).OutOfBounds?
  {
    var ds :| FitEntries(ds) && v[pos..] == Continued(ds);
    assert Continued(ds) == Continued(ds) + [];
    OpenIsPassed(v, pos, ds, []);
  }

  lemma LastIsRead(v: Bytes, d: Bytes, rest: Bytes)
    requires FitEntry(d) && |WithSize(d, false) + rest| <= |v|
    requires v[|v| - |WithSize(d, false) + rest|..] == WithSize(d, false) + rest
    ensures HashesEnd(v, |v| - |WithSize(d, false) + rest|) == Ok(|v| - |rest|) && v[|v| - |rest|..] == rest
  {
    EntryBehind(v, |v| - |WithSize(d, false) + rest|, d, false, rest);
  }

  lemma ListIsRead(v: Bytes, pos: nat, list: Bytes, rest: Bytes)
    requires pos <= |v| && HashList(list) && v[pos..] == list + rest
    ensures |rest| <= |v| && HashesEnd(v, pos) == Ok(|v| - |rest|) && v[|v| - |rest|..] == rest
  {
    var open, d :| OpenList(open) && FitEntry(d) && list == open + WithSize(d, false);
    var ds :| FitEntries(ds) && open == Continued(ds);
    Regroup(open, WithSize(d, false), rest);
    OpenIsPassed(v, pos, ds, WithSize(d, false) + rest);
    LastIsRead(v, d, rest);
  }

  /** How the reading of hashes ends, by the bytes it starts from. */
  lemma HashesOutcome(v: Bytes, pos: nat)
    requires pos <= |v|
    ensures HashesEnd(v, pos).OutOfBounds? <==> OpenList(v[pos..])
    ensures HashesEnd(v, pos).Ok? ==> HashesEnd(v, pos).value <= |v|
    ensures HashesEnd(v, pos) == Ok(|v|) <==> HashList(v[pos..])
  {
    if HashesEnd(v, pos).OutOfBounds? {
      OverrunIsOpen(v, pos);
    }
    if OpenList(v[pos..]) {
      OpenOverruns(v, pos);
    }
    if HashesEnd(v, pos).Ok? {
      var list := ReadIsList(v, pos);
      NothingBehind(list, v[HashesEnd(v, pos).value..]);
    }
    if HashList(v[pos..]) {
      WholeListIsRead(v, pos);
    }
  }

  lemma NothingBehind(list: Bytes, rest: Bytes)
    ensures rest == [] ==> list + rest == list
  {
  }

  lemma WholeListIsRead(v: Bytes, pos: nat)
    requires pos <= |v| && HashList(v[pos..])
    ensures HashesEnd(v, pos) == Ok(|v|)
  {
    assert v[pos..] == v[pos..] + [];
    ListIsRead(v, pos, v[pos..], []);
  }

  lemma FieldBehindHashes(v: Bytes, pos: nat)
    requires pos <= |v|
    ensures (HashesEnd(v, pos).Ok? && HashesEnd(v, pos).value <= |v| && Field(v[HashesEnd(v, pos).value..])) <==>
            ListAndField(v[pos..])
  {
    if HashesEnd(v, pos).Ok? {
      var list := ReadIsList(v, pos);
    }
    if ListAndField(v[pos..]) {
      FieldIsBehind(v, pos);
    }
  }

  lemma FieldIsBehind(v: Bytes, pos: nat)
    requires pos <= |v| && ListAndField(v[pos..])
    ensures HashesEnd(v, pos).Ok? && HashesEnd(v, pos).value <= |v| && Field(v[HashesEnd(v, pos).value..])
  {
    var list, f :| HashList(list) && Field(f) && v[pos..] == list + f;
    ListIsRead(v, pos, list, f);
  }

  // ----- the fields of each protocol --------------------------------------------------------------------------

  lemma DnsCryptOverruns(v: Bytes, s: Stamp, pos: nat)
    requires s.proto.DnsCrypt? && pos <= |v|
    ensures ReadRest(v, s, pos).OutOfBounds? <==> CutShort(s.proto, v[pos..])
  {
    FieldAt(v, pos);
    FieldOutcome(v, pos);
    NoFieldIsEmpty(v[pos..]);
  }

  lemma NoFieldIsEmpty(b: Bytes)
    ensures Field(b) ==> b != []
  {
  }

  lemma TlsOverruns(v: Bytes, s: Stamp, pos: nat)
    requires (s.proto.Tls? || s.proto.Doq?) && pos <= |v|
    ensures ReadRest(v, s, pos).OutOfBounds? <==> CutShort(s.proto, v[pos..])
  {
    HashesEndThere(v, pos, []);
    HashesOutcome(v, pos);
  }

  lemma DohOverruns(v: Bytes, s: Stamp, pos: nat)
    requires s.proto.Doh? && pos <= |v|
    ensures ReadRest(v, s, pos).OutOfBounds? <==> CutShort(s.proto, v[pos..])
  {
    HashesEndThere(v, pos, []);
    HashesOutcome(v, pos);
    FieldBehindHashes(v, pos);
    if HashesEnd(v, pos).Ok? {
      FieldAt(v, HashesEnd(v, pos).value);
      FieldOutcome(v, HashesEnd(v, pos).value);
    }
  }

  lemma RestOverruns(v: Bytes, s: Stamp, pos: nat)
    requires pos <= |v|
    ensures ReadRest(v, s, pos).OutOfBounds? <==> CutShort(s.proto, v[pos..])
  {
    match s.proto
    case Plain =>
    case DnsCrypt => DnsCryptOverruns(v, s, pos);
    case Doh => DohOverruns(v, s, pos);
    case Tls => TlsOverruns(v, s, pos);
    case Doq => TlsOverruns(v, s, pos);
  }

  // ----- whole stamps -----------------------------------------------------------------------------------------

  /** The start never overruns, and is read exactly when the address is there and well-formed. */
  lemma StartOutcome(isIp: Bytes -> bool, v: Bytes, p: Proto)
    requires |v| >= MinSize(p)
    ensures !ReadStart(isIp, v, p).OutOfBounds?
    ensures ReadStart(isIp, v, p).Ok? <==> ReadField(v, 9).Ok? && !SplitHostPort(ReadField(v, 9).value.0).2
    ensures ReadStart(isIp, v, p).Ok? ==>
              ReadStart(isIp, v, p).value.1 == ReadField(v, 9).value.1 && ReadStart(isIp, v, p).value.0.proto == p
  {
  }

  lemma AddressThere(v: Bytes, kind: Bytes -> bool)
    requires |v| >= 9
    ensures AddressThen(v, kind) <==>
            && ReadField(v, 9).Ok? && !SplitHostPort(ReadField(v, 9).value.0).2
            && ReadField(v, 9).value.1 <= |v| && kind(v[ReadField(v, 9).value.1..])
  {
    FieldAt(v, 9);
    if AddressThen(v, kind) {
      var addr, rest :|
        FitsByte(addr) && !SplitHostPort(addr).2 && v[9..] == WithSize(addr, false) + rest && kind(rest);
      FieldBehind(v, 9, addr, rest);
    }
  }

  lemma BytesOverrun(isIp: Bytes -> bool, v: Bytes, p: Proto)
    ensures NewServerStamp(isIp, v, p).OutOfBounds? <==> Overruns(p, v)
  {
    if |v| >= MinSize(p) {
      StartOutcome(isIp, v, p);
      AddressThere(v, rest => CutShort(p, rest));
      if ReadStart(isIp, v, p).Ok? {
        FieldAt(v, 9);
        var (start, pos) := ReadStart(isIp, v, p).value;
        RestOverruns(v, start, pos);
      }
    }
  }

  /** Parsing a text reads behind the end of the decoded bytes exactly when these are a stamp of a known protocol that is
      cut short behind its address. */
  lemma OverrunsExactly(isIp: Bytes -> bool, url: Bytes)
    ensures FromString(isIp, url).OutOfBounds? <==>
            && StartsWith(url, STAMP_URL_PREFIX)
            && Decoded(url[|STAMP_URL_PREFIX|..], true).Some?
            && var v := Decoded(url[|STAMP_URL_PREFIX|..], true).value;
               v != [] && ProtoOf(v[0]).Some? && Overruns(ProtoOf(v[0]).value, v)
  {
    if StartsWith(url, STAMP_URL_PREFIX) {
      var decoded := Decoded(url[|STAMP_URL_PREFIX|..], true);
      if decoded.Some? && decoded.value != [] && ProtoOf(decoded.value[0]).Some? {
        BytesOverrun(isIp, decoded.value, ProtoOf(decoded.value[0]).value);
      }
    }
  }

  /** Such texts are there for every protocol but the plain one: any properties, a well-formed address that brings the
      bytes to the minimum size, and nothing else. */
  lemma AddressAloneOverruns(isIp: Bytes -> bool, p: Proto, props: Bytes, addr: Bytes)
    requires !p.Plain? && |props| == 8 && FitsByte(addr) && !SplitHostPort(addr).2 && 10 + |addr| >= MinSize(p)
    ensures FromString(isIp, STAMP_URL_PREFIX + Encoded([ProtoByte(p)] + props + WithSize(addr, false), true)).OutOfBounds?
  {
    var v := [ProtoByte(p)] + props + WithSize(addr, false);
    TextIsDecoded(isIp, v, p);
    assert v[9..] == WithSize(addr, false) + [];
    NothingIsCutShort(p);
    assert (rest => CutShort(p, rest))([]);
    assert AddressThen(v, rest => CutShort(p, rest));
    BytesOverrun(isIp, v, p);
  }

  lemma NothingIsCutShort(p: Proto)
    requires !p.Plain?
    ensures CutShort(p, [])
  {
    assert FitEntries([]) && Continued([]) == [];
    assert OpenList([]);
  }

  /** A text that was made from a stamp with fields that fit never does this. */
  lemma WrittenStampsDoNotOverrun(isIp: Bytes -> bool, s: Stamp)
    requires FieldsFit(s) && FitsByte(WrittenAddr(s))
    ensures !FromString(isIp, StampString(s)).OutOfBounds?
  {
    StampStringIsDecoded(isIp, s);
    if |StampBytes(s)| >= MinSize(s.proto) {
      StartIsRead(isIp, s);
      FieldsAreThere(s);
      WrittenFieldsAreRead(isIp, s);
    }
  }

  lemma WrittenFieldsAreRead(isIp: Bytes -> bool, s: Stamp)
    requires FieldsFit(s) && At(StampBytes(s), 9 + |AddrField(s)|, Fields(s))
    requires ReadStart(isIp, StampBytes(s), s.proto).Ok? ==>
               ReadStart(isIp, StampBytes(s), s.proto).value.1 == 9 + |AddrField(s)|
    ensures !NewServerStamp(isIp, StampBytes(s), s.proto).OutOfBounds? || ReadStart(isIp, StampBytes(s), s.proto).OutOfBounds?
  {
    if ReadStart(isIp, StampBytes(s), s.proto).Ok? {
      var (start, pos) := ReadStart(isIp, StampBytes(s), s.proto).value;
      var same := s.(props := start.props, serverAddr := start.serverAddr);
      assert Fields(same) == Fields(s);
      RestIsRead(StampBytes(s), same, start, pos);
    }
  }
}
