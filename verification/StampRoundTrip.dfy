/** When reading a stamp returns the stamp that was written. */
module StampRoundTrip {
  import opened Text
  import opened Base64
  import opened DnsStamp

  // ----- what a stamp needs -----------------------------------------------------------------------------

  /** The address without the default port of the protocol, as it is written. */
  function WrittenAddr(s: Stamp): Bytes {
    WithoutSuffix(s.serverAddr, PortSuffix(s.proto))
  }

  /** An address that ends in the default port is a numeric one; any other is well-formed, and not a
      numeric one without a port. */
  predicate AddrIsKept(isIp: Bytes -> bool, s: Stamp) {
    if EndsWith(s.serverAddr, PortSuffix(s.proto)) then IsBareIp(isIp, WrittenAddr(s))
    else !SplitHostPort(s.serverAddr).2 && !IsBareIp(isIp, s.serverAddr)
  }

  predicate FitsByte(b: Bytes) { |b| <= 255 }

  predicate FitHashes(hashes: seq<Bytes>) {
    forall i :: 0 <= i < |hashes| ==> 1 <= |hashes[i]| <= 127
  }

  /** The fields the protocol uses fit their length bytes, and the others are empty. */
  predicate FieldsFit(s: Stamp) {
    match s.proto
    case Plain => s.serverPk == [] && s.hashes == [] && s.providerName == [] && s.path == []
    case DnsCrypt => FitsByte(s.serverPk) && FitsByte(s.providerName) && s.hashes == [] && s.path == []
    case Doh => FitHashes(s.hashes) && FitsByte(s.providerName) && FitsByte(s.path) && s.serverPk == []
    case Tls => FitHashes(s.hashes) && FitsByte(s.providerName) && s.serverPk == [] && s.path == []
    case Doq => FitHashes(s.hashes) && FitsByte(s.providerName) && s.serverPk == [] && s.path == []
  }

  predicate RoundTrips(isIp: Bytes -> bool, s: Stamp) {
    && AddrIsKept(isIp, s)
    && FitsByte(WrittenAddr(s))
    && FieldsFit(s)
    && |StampBytes(s)| >= MinSize(s.proto)
  }

  // ----- one field ----------------------------------------------------------------------------------------

  /** `part` stands in `v` at `pos`. */
  predicate At(v: Bytes, pos: nat, part: Bytes) {
    pos + |part| <= |v| && v[pos..pos + |part|] == part
  }

  lemma AtSplit(v: Bytes, pos: nat, a: Bytes, b: Bytes)
    requires At(v, pos, a + b)
    ensures At(v, pos, a) && At(v, pos + |a|, b)
  {
    var w := v[pos..pos + |a + b|];
    assert w[..|a|] == a && w[|a|..] == b;
    assert v[pos..pos + |a|] == w[..|a|];
    assert v[pos + |a|..pos + |a| + |b|] == w[|a|..];
  }

  lemma FieldIsRead(v: Bytes, pos: nat, data: Bytes)
    requires At(v, pos, WithSize(data, false)) && FitsByte(data)
    ensures ReadField(v, pos) == Ok((data, pos + |WithSize(data, false)|))
  {
    AtSplit(v, pos, [SizeByte(|data|, false)], data);
    assert v[pos] == v[pos..pos + 1][0];
  }

  // ----- hashes ---------------------------------------------------------------------------------------------

  lemma HashEntryIsRead(v: Bytes, pos: nat, hash: Bytes, more: bool)
    requires 1 <= |hash| <= 127 && At(v, pos, WithSize(hash, more))
    ensures pos + 1 + |hash| <= |v| && v[pos + 1..pos + 1 + |hash|] == hash
    ensures v[pos] % 128 == |hash| && (v[pos] >= 128 <==> more)
  {
    AtSplit(v, pos, [SizeByte(|hash|, more)], hash);
    assert v[pos] == v[pos..pos + 1][0];
  }

  /** The hashes from `pos` on are read, behind those before, and the position `end` is behind them. */
  ghost predicate Reads(v: Bytes, pos: nat, before: seq<Bytes>, all: seq<Bytes>, end: nat) {
    ReadHashes(v, pos, before) == Ok((all, end))
  }

  lemma LastHashIsRead(v: Bytes, pos: nat, hash: Bytes, before: seq<Bytes>)
    requires 1 <= |hash| <= 127 && At(v, pos, WithSize(hash, false))
    ensures Reads(v, pos, before, before + [hash], pos + 1 + |hash|)
  {
    HashEntryIsRead(v, pos, hash, false);
  }

  lemma HashIsRead(v: Bytes, pos: nat, hash: Bytes, before: seq<Bytes>, all: seq<Bytes>, end: nat)
    requires 1 <= |hash| <= 127 && At(v, pos, WithSize(hash, true))
    requires Reads(v, pos + 1 + |hash|, before + [hash], all, end)
    ensures Reads(v, pos, before, all, end)
  {
    HashEntryIsRead(v, pos, hash, true);
  }

  lemma {:induction false} HashesAreRead(v: Bytes, pos: nat, hashes: seq<Bytes>, before: seq<Bytes>)
    requires hashes != [] && FitHashes(hashes) && At(v, pos, HashEntries(hashes))
    ensures Reads(v, pos, before, before + hashes, pos + |HashEntries(hashes)|)
    decreases |hashes|
  {
    var first, rest := FirstAndRest(hashes);
    EntriesSplit(v, pos, first, rest);
    if rest != [] {
      HashesAreRead(v, pos + 1 + |first|, rest, before + [first]);
    }
    FirstHashIsRead(v, pos, first, rest, before, pos + |HashEntries(hashes)|);
  }

  lemma FirstAndRest(hashes: seq<Bytes>) returns (first: Bytes, rest: seq<Bytes>)
    requires hashes != [] && FitHashes(hashes)
    ensures hashes == [first] + rest && 1 <= |first| <= 127 && FitHashes(rest)
    ensures HashEntries(hashes) == WithSize(first, rest != []) + HashEntries(rest)
  {
    first, rest := hashes[0], hashes[1..];
  }

  lemma EntriesSplit(v: Bytes, pos: nat, first: Bytes, rest: seq<Bytes>)
    requires At(v, pos, WithSize(first, rest != []) + HashEntries(rest))
    ensures At(v, pos, WithSize(first, rest != [])) && At(v, pos + 1 + |first|, HashEntries(rest))
    ensures |WithSize(first, rest != []) + HashEntries(rest)| == 1 + |first| + |HashEntries(rest)|
    ensures rest == [] ==> HashEntries(rest) == []
  {
    AtSplit(v, pos, WithSize(first, rest != []), HashEntries(rest));
  }

  lemma FirstHashIsRead(v: Bytes, pos: nat, first: Bytes, rest: seq<Bytes>, before: seq<Bytes>, end: nat)
    requires 1 <= |first| <= 127 && At(v, pos, WithSize(first, rest != []))
    requires if rest == [] then end == pos + 1 + |first|
             else Reads(v, pos + 1 + |first|, before + [first], (before + [first]) + rest, end)
    ensures Reads(v, pos, before, before + ([first] + rest), end)
  {
    Regroup(before, [first], rest);
    if rest == [] {
      LastHashIsRead(v, pos, first, before);
      assert (before + [first]) + rest == before + [first];
    } else {
      HashIsRead(v, pos, first, before, (before + [first]) + rest, end);
    }
  }

  lemma HashesFieldIsRead(v: Bytes, pos: nat, hashes: seq<Bytes>)
    requires FitHashes(hashes) && At(v, pos, HashesField(hashes))
    ensures ReadHashes(v, pos, []) == Ok((hashes, pos + |HashesField(hashes)|))
  {
    if hashes == [] {
      assert v[pos] == v[pos..pos + 1][0];
    } else {
      HashesAreRead(v, pos, hashes, []);
      assert [] + hashes == hashes;
    }
  }

  lemma {:induction false} ReadHashesFit(v: Bytes, pos: nat, before: seq<Bytes>)
    requires FitHashes(before) && ReadHashes(v, pos, before).Ok?
    ensures FitHashes(ReadHashes(v, pos, before).value.0)
    decreases |v| - pos
  {
    var size := v[pos] % 128;
    var next := pos + 1 + size;
    var hashes := if size > 0 then before + [v[pos + 1..next]] else before;
    if v[pos] >= 128 {
      ReadHashesFit(v, next, hashes);
    }
  }

  // ----- the start --------------------------------------------------------------------------------------------

  lemma {:induction false} PropsAreRead(n: nat, k: nat)
    requires n < Power256(k)
    ensures FromLittleEndian(LittleEndian(n, k)) == n
  {
    if k > 0 {
      PropsAreRead(n / 256, k - 1);
      assert LittleEndian(n, k)[1..] == LittleEndian(n / 256, k - 1);
    }
  }

  lemma HeaderIsRead(s: Stamp)
    ensures |Header(s)| == 9 && StampBytes(s)[0] == ProtoByte(s.proto)
    ensures |StampBytes(s)| >= 9 && FromLittleEndian(StampBytes(s)[1..9]) == s.props
    ensures At(StampBytes(s), 9, AddrField(s) + Fields(s))
  {
    var v := StampBytes(s);
    assert v[1..9] == LittleEndian(s.props, 8);
    FitsBytes([]);
    PropsAreRead(s.props, 8);
    assert v[9..] == AddrField(s) + Fields(s);
  }

  lemma SuffixBack(s: Stamp)
    requires EndsWith(s.serverAddr, PortSuffix(s.proto))
    ensures WrittenAddr(s) + PortSuffix(s.proto) == s.serverAddr
  {
  }

  /** What the start of a stamp reads as, when the address fits. */
  lemma StartIsRead(isIp: Bytes -> bool, s: Stamp)
    requires FitsByte(WrittenAddr(s)) && |StampBytes(s)| >= MinSize(s.proto)
    ensures var r := ReadStart(isIp, StampBytes(s), s.proto);
            var start := EmptyStamp(s.proto).(props := s.props, serverAddr := s.serverAddr);
            && (AddrIsKept(isIp, s) <==> r == Ok((start, 9 + |AddrField(s)|)))
            && (r.Ok? ==> r.value.1 == 9 + |AddrField(s)|)
            && (r.Ok? && r.value.0.serverAddr == s.serverAddr ==> AddrIsKept(isIp, s))
  {
    var v := StampBytes(s);
    HeaderIsRead(s);
    AtSplit(v, 9, AddrField(s), Fields(s));
    FieldIsRead(v, 9, WrittenAddr(s));
    var w := WrittenAddr(s);
    if EndsWith(s.serverAddr, PortSuffix(s.proto)) {
      SuffixBack(s);
      assert |w| < |s.serverAddr|;
    } else {
      assert |w + PortSuffix(s.proto)| > |s.serverAddr|;
    }
  }

  /** An address too long for its length byte does not come back. */
  lemma LongAddrIsLost(isIp: Bytes -> bool, s: Stamp)
    requires !FitsByte(WrittenAddr(s))
    ensures var r := ReadStart(isIp, StampBytes(s), s.proto);
            r.Ok? ==> r.value.0.serverAddr != s.serverAddr
  {
    var r := ReadStart(isIp, StampBytes(s), s.proto);
    if r.Ok? {
      var addr := ReadField(StampBytes(s), 9).value.0;
      var size := StampBytes(s)[9];
      HeaderIsRead(s);
      AtSplit(StampBytes(s), 9, AddrField(s), Fields(s));
      AtSplit(StampBytes(s), 9, [SizeByte(|WrittenAddr(s)|, false)], WrittenAddr(s));
      assert size == StampBytes(s)[9..10][0];
      assert |addr| == |WrittenAddr(s)| % 256;
    }
  }

  // ----- the rest -----------------------------------------------------------------------------------------------

  lemma TwoFieldsAreRead(v: Bytes, pos: nat, a: Bytes, b: Bytes)
    requires FitsByte(a) && FitsByte(b) && At(v, pos, WithSize(a, false) + WithSize(b, false))
    ensures var next := pos + |WithSize(a, false)|;
            && ReadField(v, pos) == Ok((a, next))
            && ReadField(v, next) == Ok((b, pos + |WithSize(a, false) + WithSize(b, false)|))
  {
    AtSplit(v, pos, WithSize(a, false), WithSize(b, false));
    FieldIsRead(v, pos, a);
    FieldIsRead(v, pos + |WithSize(a, false)|, b);
  }

  lemma HashesThenRead(v: Bytes, pos: nat, hashes: seq<Bytes>, rest: Bytes)
    requires FitHashes(hashes) && At(v, pos, HashesField(hashes) + rest)
    ensures ReadHashes(v, pos, []) == Ok((hashes, pos + |HashesField(hashes)|))
    ensures At(v, pos + |HashesField(hashes)|, rest)
  {
    AtSplit(v, pos, HashesField(hashes), rest);
    HashesFieldIsRead(v, pos, hashes);
  }

  lemma DnsCryptIsRead(v: Bytes, s: Stamp, start: Stamp, pos: nat)
    requires s.proto.DnsCrypt? && FieldsFit(s) && At(v, pos, Fields(s))
    requires start == EmptyStamp(s.proto).(props := s.props, serverAddr := s.serverAddr)
    ensures ReadRest(v, start, pos) == Ok((s, pos + |Fields(s)|))
  {
    TwoFieldsAreRead(v, pos, s.serverPk, s.providerName);
  }

  lemma DohIsRead(v: Bytes, s: Stamp, start: Stamp, pos: nat)
    requires s.proto.Doh? && FieldsFit(s) && At(v, pos, Fields(s))
    requires start == EmptyStamp(s.proto).(props := s.props, serverAddr := s.serverAddr)
    ensures ReadRest(v, start, pos) == Ok((s, pos + |Fields(s)|))
  {
    HashesAndFieldsAreRead(v, pos, s.hashes, s.providerName, s.path);
    var next := pos + |HashesField(s.hashes)|;
    FieldsInTurn(v, start, pos, s.hashes, next, s.providerName, next + |WithSize(s.providerName, false)|, s.path,
                 pos + |Fields(s)|);
  }

  lemma FieldsInTurn(v: Bytes, start: Stamp, pos: nat,
                     hashes: seq<Bytes>, p1: nat, name: Bytes, p2: nat, path: Bytes, p3: nat)
    requires start.proto.Doh? && ReadHashes(v, pos, []) == Ok((hashes, p1))
    requires ReadField(v, p1) == Ok((name, p2)) && ReadField(v, p2) == Ok((path, p3))
    ensures ReadRest(v, start, pos) == Ok((start.(hashes := hashes, providerName := name, path := path), p3))
  {
  }

  lemma HashesAndFieldsAreRead(v: Bytes, pos: nat, hashes: seq<Bytes>, name: Bytes, path: Bytes)
    requires FitHashes(hashes) && FitsByte(name) && FitsByte(path)
    requires At(v, pos, HashesField(hashes) + (WithSize(name, false) + WithSize(path, false)))
    ensures var next := pos + |HashesField(hashes)|;
            var last := next + |WithSize(name, false)|;
            && ReadHashes(v, pos, []) == Ok((hashes, next)) && ReadField(v, next) == Ok((name, last))
            && ReadField(v, last) == Ok((path, next + |WithSize(name, false) + WithSize(path, false)|))
  {
    HashesThenRead(v, pos, hashes, WithSize(name, false) + WithSize(path, false));
    TwoFieldsAreRead(v, pos + |HashesField(hashes)|, name, path);
  }

  lemma TlsIsRead(v: Bytes, s: Stamp, start: Stamp, pos: nat)
    requires (s.proto.Tls? || s.proto.Doq?) && FieldsFit(s) && At(v, pos, Fields(s))
    requires start == EmptyStamp(s.proto).(props := s.props, serverAddr := s.serverAddr)
    ensures ReadRest(v, start, pos) == Ok((s, pos + |Fields(s)|))
  {
    HashesThenRead(v, pos, s.hashes, WithSize(s.providerName, false));
    FieldIsRead(v, pos + |HashesField(s.hashes)|, s.providerName);
  }

  lemma RestIsRead(v: Bytes, s: Stamp, start: Stamp, pos: nat)
    requires FieldsFit(s) && At(v, pos, Fields(s))
    requires start == EmptyStamp(s.proto).(props := s.props, serverAddr := s.serverAddr)
    ensures ReadRest(v, start, pos) == Ok((s, pos + |Fields(s)|))
  {
    if s.proto.DnsCrypt? {
      DnsCryptIsRead(v, s, start, pos);
    } else if s.proto.Doh? {
      DohIsRead(v, s, start, pos);
    } else if !s.proto.Plain? {
      TlsIsRead(v, s, start, pos);
    }
  }

  /** Whatever is read fits. */
  lemma ReadRestFits(v: Bytes, start: Stamp, pos: nat)
    requires start.serverPk == [] && start.hashes == [] && start.providerName == [] && start.path == []
    requires ReadRest(v, start, pos).Ok?
    ensures var r := ReadRest(v, start, pos).value.0;
            && FieldsFit(r) && r.serverAddr == start.serverAddr && r.proto == start.proto
  {
    if !start.proto.Plain? && !start.proto.DnsCrypt? {
      ReadHashesFit(v, pos, []);
    }
  }

  // ----- the whole ------------------------------------------------------------------------------------------------

  lemma PrefixIsRemoved(text: Bytes)
    ensures var url := STAMP_URL_PREFIX + text;
            StartsWith(url, STAMP_URL_PREFIX) && url[|STAMP_URL_PREFIX|..] == text
  {
  }

  lemma TextIsDecoded(isIp: Bytes -> bool, v: Bytes, p: Proto)
    requires v != [] && ProtoOf(v[0]) == Some(p)
    ensures FromString(isIp, STAMP_URL_PREFIX + Encoded(v, true)) == NewServerStamp(isIp, v, p)
  {
    PrefixIsRemoved(Encoded(v, true));
    Base64RoundTrip(v, true);
  }

  lemma StampStringIsDecoded(isIp: Bytes -> bool, s: Stamp)
    ensures FromString(isIp, StampString(s)) == NewServerStamp(isIp, StampBytes(s), s.proto)
  {
    HeaderIsRead(s);
    TextIsDecoded(isIp, StampBytes(s), s.proto);
  }

  lemma GoodStampReads(isIp: Bytes -> bool, s: Stamp)
    requires RoundTrips(isIp, s)
    ensures NewServerStamp(isIp, StampBytes(s), s.proto) == Ok(s)
  {
    var v := StampBytes(s);
    StartIsRead(isIp, s);
    var start := EmptyStamp(s.proto).(props := s.props, serverAddr := s.serverAddr);
    FieldsAreThere(s);
    RestIsRead(v, s, start, 9 + |AddrField(s)|);
  }

  lemma FieldsAreThere(s: Stamp)
    ensures At(StampBytes(s), 9 + |AddrField(s)|, Fields(s)) && |StampBytes(s)| == 9 + |AddrField(s)| + |Fields(s)|
  {
    HeaderIsRead(s);
    AtSplit(StampBytes(s), 9, AddrField(s), Fields(s));
  }

  lemma ReadStampIsGood(isIp: Bytes -> bool, s: Stamp)
    requires NewServerStamp(isIp, StampBytes(s), s.proto) == Ok(s)
    ensures RoundTrips(isIp, s)
  {
    var v := StampBytes(s);
    var start := ReadStart(isIp, v, s.proto).value;
    ReadRestFits(v, start.0, start.1);
    if !FitsByte(WrittenAddr(s)) {
      LongAddrIsLost(isIp, s);
    } else {
      StartIsRead(isIp, s);
    }
  }

  /** Reading the text of a stamp returns the stamp exactly when its fields fit, its address is kept and
      it reaches the minimum size of its protocol; the cursor then ends at the end, and no byte behind
      it is read. */
  lemma StampRoundTripsExactly(isIp: Bytes -> bool, s: Stamp)
    ensures FromString(isIp, StampString(s)) == Ok(s) <==> RoundTrips(isIp, s)
  {
    StampStringIsDecoded(isIp, s);
    if RoundTrips(isIp, s) {
      GoodStampReads(isIp, s);
    }
    if NewServerStamp(isIp, StampBytes(s), s.proto) == Ok(s) {
      ReadStampIsGood(isIp, s);
    }
  }
}
