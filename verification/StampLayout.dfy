/** The bytes of a stamp, protocol by protocol, as they are laid out: what is read from them and what is written
    (dnsstamp/src/dns_stamp.cpp). Numbers are given as such here, so that neither the reader nor the writer decides what
    they are. */
module StampLayout {
  import opened Text
  import opened Base64
  import opened DnsStamp
  import opened StampRoundTrip

  // ----- fields -----------------------------------------------------------------------------------------------

  /** The number of eight bytes, the lowest first. */
  function Number(b: Bytes): nat
    requires |b| == 8
  {
    (b[0] as int) + 0x100 * (b[1] as int) + 0x1_0000 * (b[2] as int) + 0x100_0000 * (b[3] as int)
    + 0x1_0000_0000 * (b[4] as int) + 0x100_0000_0000 * (b[5] as int)
    + 0x1_0000_0000_0000 * (b[6] as int) + 0x100_0000_0000_0000 * (b[7] as int)
  }

  function Sized(d: Bytes): Bytes
    requires |d| <= 255
  {
    [|d|] + d
  }

  /** Hashes of 1 to 127 bytes behind their sizes, with the highest bit set in all sizes but the last; a zero for none. */
  function HashBytes(hashes: seq<Bytes>): Bytes
    requires FitHashes(hashes)
  {
    if hashes == [] then [0]
    else if |hashes| == 1 then [|hashes[0]|] + hashes[0]
    else [128 + |hashes[0]|] + hashes[0] + HashBytes(hashes[1..])
  }

  lemma SizedIsWithSize(d: Bytes)
    requires |d| <= 255
    ensures Sized(d) == WithSize(d, false)
  {
  }

  lemma {:induction false} HashBytesAreEntries(hashes: seq<Bytes>)
    requires hashes != [] && FitHashes(hashes)
    ensures HashBytes(hashes) == HashEntries(hashes)
    decreases |hashes|
  {
    EntrySizes(hashes[0]);
    if |hashes| > 1 {
      HashBytesAreEntries(hashes[1..]);
    } else {
      NoMoreEntries(hashes);
    }
  }

  lemma NoMoreEntries(hashes: seq<Bytes>)
    requires |hashes| == 1
    ensures HashEntries(hashes) == WithSize(hashes[0], false)
  {
    assert hashes[1..] == [] && HashEntries([]) == [];
  }

  lemma EntrySizes(d: Bytes)
    requires 1 <= |d| <= 127
    ensures WithSize(d, false) == [|d|] + d && WithSize(d, true) == [128 + |d|] + d
  {
  }

  lemma HashBytesAreField(hashes: seq<Bytes>)
    requires FitHashes(hashes)
    ensures HashBytes(hashes) == HashesField(hashes)
  {
    if hashes != [] {
      HashBytesAreEntries(hashes);
    }
  }

  // ----- the properties ---------------------------------------------------------------------------------------

  lemma TwoBytesMore(b: Bytes)
    requires |b| >= 2
    ensures FromLittleEndian(b) == (b[0] as int) + 0x100 * (b[1] as int) + 0x1_0000 * FromLittleEndian(b[2..])
  {
    assert b[1..][1..] == b[2..];
  }

  lemma NumberIsRead(b: Bytes)
    requires |b| == 8
    ensures FromLittleEndian(b) == Number(b)
  {
    TwoBytesMore(b);
    TwoBytesMore(b[2..]);
    assert b[2..][2..] == b[4..];
    TwoBytesMore(b[4..]);
    assert b[4..][2..] == b[6..];
    TwoBytesMore(b[6..]);
    assert b[6..][2..] == [];
  }

  lemma {:induction false} BytesAreWritten(b: Bytes)
    ensures LittleEndian(FromLittleEndian(b), |b|) == b
  {
    if b != [] {
      BytesAreWritten(b[1..]);
      LowByte(b[0], FromLittleEndian(b[1..]));
    }
  }

  lemma LowByte(b: Byte, rest: nat)
    ensures (b + 256 * rest) % 256 == b && (b + 256 * rest) / 256 == rest
  {
  }

  // ----- reading ----------------------------------------------------------------------------------------------

  /** What comes of a stamp of `size` bytes: `min` bytes are needed, and the address must be well-formed; a numeric one
      without a port gets the default port. */
  function Outcome(isIp: Bytes -> bool, size: nat, min: nat, addr: Bytes, port: Bytes, s: Stamp): Result<Stamp> {
    if size < min then Error("Stamp is too short")
    else if SplitHostPort(addr).2 then Error("Malformed address")
    else Ok(s.(serverAddr := if IsBareIp(isIp, addr) then addr + port else addr))
  }

  /** A stamp's bytes: the number of the protocol, the properties, the address and the fields of the protocol. */
  function Laid(number: Byte, props: Bytes, addr: Bytes, fields: Bytes): Bytes
    requires |addr| <= 255
  {
    [number] + props + Sized(addr) + fields
  }

  lemma LaidParts(number: Byte, props: Bytes, addr: Bytes, fields: Bytes)
    requires |props| == 8 && |addr| <= 255
    ensures var v := Laid(number, props, addr, fields);
            && v[0] == number && |v| == 10 + |addr| + |fields| && v[1..9] == props
            && At(v, 9, Sized(addr)) && At(v, 10 + |addr|, fields)
  {
    var v := Laid(number, props, addr, fields);
    assert v[1..9] == props;
    assert v[9..9 + |Sized(addr)|] == Sized(addr);
    assert v[10 + |addr|..10 + |addr| + |fields|] == fields;
  }

  lemma StartOfLaid(isIp: Bytes -> bool, v: Bytes, p: Proto, props: Bytes, addr: Bytes, n: U64)
    requires |props| == 8 && |addr| <= 255 && |v| >= MinSize(p) && v[1..9] == props && At(v, 9, Sized(addr))
    requires n == FromLittleEndian(props)
    ensures ReadStart(isIp, v, p) ==
            if SplitHostPort(addr).2 then Error("Malformed address")
            else Ok((EmptyStamp(p).(props := n, serverAddr := if IsBareIp(isIp, addr) then addr + PortSuffix(p) else addr),
                     10 + |addr|))
  {
    SizedIsWithSize(addr);
    FieldIsRead(v, 9, addr);
  }

  /** What comes of a start that was read, when the fields behind it are there. */
  lemma FieldsOfLaid(isIp: Bytes -> bool, v: Bytes, s: Stamp, full: Bytes, pos: nat)
    requires FieldsFit(s) && At(v, pos, Fields(s)) && |v| == pos + |Fields(s)|
    requires ReadStart(isIp, v, s.proto) == Ok((EmptyStamp(s.proto).(props := s.props, serverAddr := full), pos))
    ensures NewServerStamp(isIp, v, s.proto) == Ok(s.(serverAddr := full))
  {
    var same := s.(serverAddr := full);
    assert Fields(same) == Fields(s);
    RestIsRead(v, same, EmptyStamp(s.proto).(props := s.props, serverAddr := full), pos);
  }

  lemma LaidIsRead(isIp: Bytes -> bool, v: Bytes, props: Bytes, addr: Bytes, s: Stamp)
    requires |props| == 8 && |addr| <= 255 && FieldsFit(s) && s.props == FromLittleEndian(props)
    requires v == Laid(ProtoByte(s.proto), props, addr, Fields(s))
    ensures NewServerStamp(isIp, v, s.proto) == Outcome(isIp, |v|, MinSize(s.proto), addr, PortSuffix(s.proto), s)
  {
    LaidParts(ProtoByte(s.proto), props, addr, Fields(s));
    if |v| >= MinSize(s.proto) {
      StartOfLaid(isIp, v, s.proto, props, addr, s.props);
      if !SplitHostPort(addr).2 {
        FieldsOfLaid(isIp, v, s, if IsBareIp(isIp, addr) then addr + PortSuffix(s.proto) else addr, 10 + |addr|);
      }
    }
  }

  /** `sdns://` and the bytes in the URL-safe alphabet. */
  function Url(v: Bytes): Bytes {
    [115, 100, 110, 115, 58, 47, 47] + Encoded(v, true)
  }

  lemma UrlIsDecoded(isIp: Bytes -> bool, v: Bytes, p: Proto)
    requires v != [] && v[0] == ProtoByte(p)
    ensures FromString(isIp, Url(v)) == NewServerStamp(isIp, v, p)
  {
    TextIsDecoded(isIp, v, p);
  }

  lemma UrlIsRead(isIp: Bytes -> bool, v: Bytes, props: Bytes, addr: Bytes, s: Stamp, n: nat)
    requires |props| == 8 && |addr| <= 255 && FieldsFit(s) && s.props == n && n == FromLittleEndian(props)
    requires v == Laid(ProtoByte(s.proto), props, addr, Fields(s))
    ensures FromString(isIp, Url(v)) == Outcome(isIp, |v|, MinSize(s.proto), addr, PortSuffix(s.proto), s)
  {
    LaidIsRead(isIp, v, props, addr, s);
    UrlIsDecoded(isIp, v, s.proto);
  }

  /** Plain DNS: number 0, nothing behind the address, at least 17 bytes, port 53. */
  lemma PlainLayout(isIp: Bytes -> bool, props: Bytes, addr: Bytes, s: Stamp)
    requires |props| == 8 && |addr| <= 255 && s == Stamp(Plain, Number(props), addr, [], [], [], [])
    ensures var v := [0] + props + Sized(addr) + [];
            FromString(isIp, Url(v)) == Outcome(isIp, |v|, 17, addr, [58, 53, 51], s)
  {
    NumberIsRead(props);
    UrlIsRead(isIp, [0] + props + Sized(addr) + [], props, addr, s, Number(props));
  }

  /** DNSCrypt: number 1, the public key and then the provider's name, at least 66 bytes, port 443. */
  lemma DnsCryptLayout(isIp: Bytes -> bool, props: Bytes, addr: Bytes, pk: Bytes, name: Bytes, s: Stamp)
    requires |props| == 8 && |addr| <= 255 && |pk| <= 255 && |name| <= 255
    requires s == Stamp(DnsCrypt, Number(props), addr, pk, [], name, [])
    ensures var v := [1] + props + Sized(addr) + (Sized(pk) + Sized(name));
            FromString(isIp, Url(v)) == Outcome(isIp, |v|, 66, addr, [58, 52, 52, 51], s)
  {
    SizedIsWithSize(pk);
    SizedIsWithSize(name);
    NumberIsRead(props);
    UrlIsRead(isIp, [1] + props + Sized(addr) + (Sized(pk) + Sized(name)), props, addr, s, Number(props));
  }

  /** DNS over HTTPS: number 2, the hashes, the provider's name and the path, at least 19 bytes, port 443. */
  lemma DohLayout(isIp: Bytes -> bool, props: Bytes, addr: Bytes, hashes: seq<Bytes>, name: Bytes, path: Bytes, s: Stamp)
    requires |props| == 8 && |addr| <= 255 && FitHashes(hashes) && |name| <= 255 && |path| <= 255
    requires s == Stamp(Doh, Number(props), addr, [], hashes, name, path)
    ensures var v := [2] + props + Sized(addr) + (HashBytes(hashes) + (Sized(name) + Sized(path)));
            FromString(isIp, Url(v)) == Outcome(isIp, |v|, 19, addr, [58, 52, 52, 51], s)
  {
    HashBytesAreField(hashes);
    SizedIsWithSize(name);
    SizedIsWithSize(path);
    NumberIsRead(props);
    UrlIsRead(isIp, [2] + props + Sized(addr) + (HashBytes(hashes) + (Sized(name) + Sized(path))),
              props, addr, s, Number(props));
  }

  /** DNS over TLS: number 3, the hashes and the provider's name, at least 19 bytes, port 853. */
  lemma TlsLayout(isIp: Bytes -> bool, props: Bytes, addr: Bytes, hashes: seq<Bytes>, name: Bytes, s: Stamp)
    requires |props| == 8 && |addr| <= 255 && FitHashes(hashes) && |name| <= 255
    requires s == Stamp(Tls, Number(props), addr, [], hashes, name, [])
    ensures var v := [3] + props + Sized(addr) + (HashBytes(hashes) + Sized(name));
            FromString(isIp, Url(v)) == Outcome(isIp, |v|, 19, addr, [58, 56, 53, 51], s)
  {
    HashBytesAreField(hashes);
    SizedIsWithSize(name);
    NumberIsRead(props);
    UrlIsRead(isIp, [3] + props + Sized(addr) + (HashBytes(hashes) + Sized(name)), props, addr, s, Number(props));
  }

  /** DNS over QUIC: number 4, the hashes and the provider's name, at least 19 bytes, port 8853. */
  lemma DoqLayout(isIp: Bytes -> bool, props: Bytes, addr: Bytes, hashes: seq<Bytes>, name: Bytes, s: Stamp)
    requires |props| == 8 && |addr| <= 255 && FitHashes(hashes) && |name| <= 255
    requires s == Stamp(Doq, Number(props), addr, [], hashes, name, [])
    ensures var v := [4] + props + Sized(addr) + (HashBytes(hashes) + Sized(name));
            FromString(isIp, Url(v)) == Outcome(isIp, |v|, 19, addr, [58, 56, 56, 53, 51], s)
  {
    HashBytesAreField(hashes);
    SizedIsWithSize(name);
    NumberIsRead(props);
    UrlIsRead(isIp, [4] + props + Sized(addr) + (HashBytes(hashes) + Sized(name)), props, addr, s, Number(props));
  }

  // ----- writing ----------------------------------------------------------------------------------------------

  lemma LaidIsWritten(s: Stamp, props: Bytes, addr: Bytes, fields: Bytes)
    requires |props| == 8 && |addr| <= 255 && s.props == Number(props)
    requires addr == WithoutSuffix(s.serverAddr, PortSuffix(s.proto)) && fields == Fields(s)
    ensures StampString(s) == Url(Laid(ProtoByte(s.proto), props, addr, fields))
  {
    NumberIsRead(props);
    BytesAreWritten(props);
    SizedIsWithSize(addr);
    assert StampBytes(s) == Laid(ProtoByte(s.proto), props, addr, fields);
  }

  /** An address as it is written: without the default port. */
  ghost predicate WrittenAs(full: Bytes, port: Bytes, addr: Bytes) {
    |addr| <= 255 && (full == addr + port || (full == addr && !EndsWith(full, port)))
  }

  lemma WrittenWithout(full: Bytes, port: Bytes, addr: Bytes)
    requires WrittenAs(full, port, addr)
    ensures WithoutSuffix(full, port) == addr
  {
    if full == addr + port {
      assert full[|addr|..] == port && full[..|addr|] == addr;
    }
  }

  /** The text of a stamp has the bytes that are read back: the same number, order and sizes, and the address without the
      default port of the protocol. */
  lemma PlainIsWritten(s: Stamp, props: Bytes, addr: Bytes)
    requires s.proto.Plain? && |props| == 8 && s.props == Number(props) && WrittenAs(s.serverAddr, [58, 53, 51], addr)
    ensures StampString(s) == Url([0] + props + Sized(addr) + [])
  {
    WrittenWithout(s.serverAddr, [58, 53, 51], addr);
    LaidIsWritten(s, props, addr, []);
  }

  lemma DnsCryptIsWritten(s: Stamp, props: Bytes, addr: Bytes)
    requires s.proto.DnsCrypt? && |props| == 8 && s.props == Number(props)
    requires WrittenAs(s.serverAddr, [58, 52, 52, 51], addr) && |s.serverPk| <= 255 && |s.providerName| <= 255
    ensures StampString(s) == Url([1] + props + Sized(addr) + (Sized(s.serverPk) + Sized(s.providerName)))
  {
    WrittenWithout(s.serverAddr, [58, 52, 52, 51], addr);
    SizedIsWithSize(s.serverPk);
    SizedIsWithSize(s.providerName);
    LaidIsWritten(s, props, addr, Sized(s.serverPk) + Sized(s.providerName));
  }

  lemma DohIsWritten(s: Stamp, props: Bytes, addr: Bytes)
    requires s.proto.Doh? && |props| == 8 && s.props == Number(props) && WrittenAs(s.serverAddr, [58, 52, 52, 51], addr)
    requires FitHashes(s.hashes) && |s.providerName| <= 255 && |s.path| <= 255
    ensures StampString(s) ==
            Url([2] + props + Sized(addr) + (HashBytes(s.hashes) + (Sized(s.providerName) + Sized(s.path))))
  {
    WrittenWithout(s.serverAddr, [58, 52, 52, 51], addr);
    HashBytesAreField(s.hashes);
    SizedIsWithSize(s.providerName);
    SizedIsWithSize(s.path);
    LaidIsWritten(s, props, addr, HashBytes(s.hashes) + (Sized(s.providerName) + Sized(s.path)));
  }

  lemma TlsIsWritten(s: Stamp, props: Bytes, addr: Bytes)
    requires s.proto.Tls? && |props| == 8 && s.props == Number(props) && WrittenAs(s.serverAddr, [58, 56, 53, 51], addr)
    requires FitHashes(s.hashes) && |s.providerName| <= 255
    ensures StampString(s) == Url([3] + props + Sized(addr) + (HashBytes(s.hashes) + Sized(s.providerName)))
  {
    WrittenWithout(s.serverAddr, [58, 56, 53, 51], addr);
    HashBytesAreField(s.hashes);
    SizedIsWithSize(s.providerName);
    LaidIsWritten(s, props, addr, HashBytes(s.hashes) + Sized(s.providerName));
  }

  lemma DoqIsWritten(s: Stamp, props: Bytes, addr: Bytes)
    requires s.proto.Doq? && |props| == 8 && s.props == Number(props) && WrittenAs(s.serverAddr, [58, 56, 56, 53, 51], addr)
    requires FitHashes(s.hashes) && |s.providerName| <= 255
    ensures StampString(s) == Url([4] + props + Sized(addr) + (HashBytes(s.hashes) + Sized(s.providerName)))
  {
    WrittenWithout(s.serverAddr, [58, 56, 56, 53, 51], addr);
    HashBytesAreField(s.hashes);
    SizedIsWithSize(s.providerName);
    LaidIsWritten(s, props, addr, HashBytes(s.hashes) + Sized(s.providerName));
  }

  // ----- addresses --------------------------------------------------------------------------------------------

  lemma OccursAsByte(s: Bytes, c: Byte, i: int)
    ensures OccursAt(s, [c], i) <==> 0 <= i < |s| && s[i] == c
  {
    if 0 <= i < |s| {
      assert s[i..i + 1] == [s[i]];
    }
  }

  lemma NoOccurrence(s: Bytes, c: Byte)
    requires c !in s
    ensures Find(s, [c], 0).None?
  {
    forall i
      ensures !OccursAt(s, [c], i)
    {
      OccursAsByte(s, c, i);
    }
  }

  lemma OneOccurrence(s: Bytes, c: Byte, at: nat)
    requires at < |s| && s[at] == c && forall i :: 0 <= i < |s| && i != at ==> s[i] != c
    ensures Find(s, [c], 0) == Some(at) && RFind(s, [c]) == Some(at)
  {
    forall i
      ensures OccursAt(s, [c], i) <==> i == at
    {
      OccursAsByte(s, c, i);
    }
    assert OccursAt(s, [c], at);
  }

  /** Without a colon, and without brackets, all of it is the host. */
  lemma HostAlone(isIp: Bytes -> bool, a: Bytes)
    requires 58 !in a && (a == [] || a[0] != 91)
    ensures !SplitHostPort(a).2 && (IsBareIp(isIp, a) <==> isIp(a))
  {
    NoOccurrence(a, 58);
  }

  /** A host, one colon and a port: well-formed exactly when there is a port, and then no bare address. */
  lemma HostAndPort(isIp: Bytes -> bool, host: Bytes, port: Bytes)
    requires 58 !in host && 58 !in port && (host == [] || host[0] != 91)
    ensures SplitHostPort(host + [58] + port) == (host, port, port == [])
    ensures !IsBareIp(isIp, host + [58] + port)
  {
    var a := host + [58] + port;
    assert a[0] != 91;
    assert forall i :: |host| < i < |a| ==> a[i] == port[i - |host| - 1];
    OneOccurrence(a, 58, |host|);
    assert a[..|host|] == host && a[|host| + 1..] == port;
  }

  /** Brackets around a host are taken off; behind them there may be a colon and a port. */
  lemma BracketedHost(isIp: Bytes -> bool, host: Bytes)
    requires 93 !in host
    ensures !SplitHostPort([91] + host + [93]).2 && (IsBareIp(isIp, [91] + host + [93]) <==> isIp(host))
  {
    var a := [91] + host + [93];
    forall i | 0 <= i < |a| - 1
      ensures !OccursAt(a, [93, 58], i)
    {
      assert a[i] == if i == 0 then 91 else host[i - 1];
      assert a[i..i + 2] == [a[i], a[i + 1]];
    }
    assert a[1..|a| - 1] == host;
  }

  lemma BracketedHostAndPort(isIp: Bytes -> bool, host: Bytes, port: Bytes)
    requires 93 !in host
    ensures SplitHostPort([91] + host + [93, 58] + port) == (host, port, port == [])
    ensures !IsBareIp(isIp, [91] + host + [93, 58] + port)
  {
    var a := [91] + host + [93, 58] + port;
    var at := 1 + |host|;
    assert a[at..at + 2] == [93, 58];
    assert OccursAt(a, [CLOSE_BRACKET, COLON], at);
    forall i | 0 <= i < at
      ensures !OccursAt(a, [CLOSE_BRACKET, COLON], i)
    {
      assert a[i] == if i == 0 then 91 else host[i - 1];
      assert a[i..i + 2] == [a[i], a[i + 1]];
    }
    assert a[1..at] == host && a[at + 2..] == port;
  }
}
